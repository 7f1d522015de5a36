/**
 * Upload helpers: size and extension checks for book and image uploads, the
 * extension of a file name, the shape of generated file names, deletion that
 * tolerates missing files, the integer part of human-readable sizes, and the
 * saving of an inline image.
 *
 * The upload directory is a class over a map from path to contents; the
 * snowflake id and the random bytes of a generated name are parameters, and so
 * is the outcome of each file-system call.
 */
module Uploads {
  import opened Wrappers
  import opened GoStrings
  import opened Hex
  import Filenames

  const AllowedBookFormats: seq<string> := [".pdf", ".epub", ".mobi", ".azw3", ".djvu", ".fb2", ".txt"]
  const AllowedImageFormats: seq<string> := [".jpg", ".jpeg", ".png", ".webp"]
  const MaxBookSize: int := 500 * 1024 * 1024
  const MaxImageSize: int := 10 * 1024 * 1024
  const BookTooLargeMsg: string := "book file too large: maximum size is 500 MB"
  const ImageTooLargeMsg: string := "image file too large: maximum size is 10 MB"
  const InvalidBookMsg: string := "invalid book format: allowed formats are [.pdf .epub .mobi .azw3 .djvu .fb2 .txt]"
  const InvalidImageMsg: string := "invalid image format: allowed formats are [.jpg .jpeg .png .webp]"
  const DeleteFailedPrefix: string := "failed to delete file: "
  const DirFailedPrefix: string := "failed to create upload directory: "
  const DecodeFailedPrefix: string := "failed to decode base64 image: "
  const SaveFailedPrefix: string := "failed to save image: "
  /** The random part of a generated file name, in bytes. */
  const RandomBytes: nat := 4

  // ---------------------------------------------------------------------------
  // Extensions
  // ---------------------------------------------------------------------------

  /**
   * filepath.Ext: from the last '.' of the final path element to the end, or
   * nothing when that element has no '.'.
   */
  function Ext(path: string): (r: string)
    ensures HasSuffix(path, r)
    ensures r == "" || r[0] == '.'
    ensures forall i :: 0 < i < |r| ==> r[i] != '.' && r[i] != '/'
    ensures r == "" ==> forall i :: 0 <= i < |path| && path[i] == '.' ==> exists j :: i < j < |path| && path[j] == '/'
  {
    if path == [] then ""
    else
      var c := path[|path| - 1];
      var front := path[..|path| - 1];
      if c == '/' then ""
      else if c == '.' then "."
      else
        var e := Ext(front);
        if e == "" then "" else
          assert path == front + [c];
          e + [c]
  }

  /** GetFileExtension: the extension without its leading dot. */
  function GetFileExtension(filename: string): (r: string)
    ensures Ext(filename) == "" ==> r == ""
    ensures Ext(filename) != "" ==> "." + r == Ext(filename)
  {
    var ext := Ext(filename);
    if |ext| > 0 && ext[0] == '.' then ext[1..] else ext
  }

  // ---------------------------------------------------------------------------
  // Validation
  // ---------------------------------------------------------------------------

  /**
   * The check both validators make: the size first, then the lower-cased
   * extension against the allowed list, scanned in order.
   */
  method ValidateFile(size: int, filename: string, maxSize: int, allowed: seq<string>,
                      tooLargeMsg: string, invalidMsg: string)
    returns (err: Option<string>)
    ensures size > maxSize ==> err == Some(tooLargeMsg)
    ensures size <= maxSize ==> (err.None? <==> ToLower(Ext(filename)) in allowed)
    ensures size <= maxSize && err.Some? ==> err == Some(invalidMsg)
  {
    if size > maxSize {
      return Some(tooLargeMsg);
    }
    var ext := ToLower(Ext(filename));
    var i := 0;
    while i < |allowed|
      invariant 0 <= i <= |allowed|
      invariant forall j :: 0 <= j < i ==> allowed[j] != ext
    {
      if ext == allowed[i] {
        return None;
      }
      i := i + 1;
    }
    err := Some(invalidMsg);
  }

  /** ValidateBookFile: at most 500 MiB, with one of the book extensions in any case. */
  method ValidateBookFile(size: int, filename: string) returns (err: Option<string>)
    ensures size > MaxBookSize ==> err == Some(BookTooLargeMsg)
    ensures size <= MaxBookSize ==> (err.None? <==> ToLower(Ext(filename)) in AllowedBookFormats)
    ensures size <= MaxBookSize && err.Some? ==> err == Some(InvalidBookMsg)
  {
    err := ValidateFile(size, filename, MaxBookSize, AllowedBookFormats, BookTooLargeMsg, InvalidBookMsg);
  }

  /** ValidateImageFile: at most 10 MiB, with one of the image extensions in any case. */
  method ValidateImageFile(size: int, filename: string) returns (err: Option<string>)
    ensures size > MaxImageSize ==> err == Some(ImageTooLargeMsg)
    ensures size <= MaxImageSize ==> (err.None? <==> ToLower(Ext(filename)) in AllowedImageFormats)
    ensures size <= MaxImageSize && err.Some? ==> err == Some(InvalidImageMsg)
  {
    err := ValidateFile(size, filename, MaxImageSize, AllowedImageFormats, ImageTooLargeMsg, InvalidImageMsg);
  }

  // ---------------------------------------------------------------------------
  // Generated names
  // ---------------------------------------------------------------------------

  /** GenerateUniqueFilename: `<id>_<8 hex digits><ext>` from a snowflake id and four random bytes. */
  function GenerateUniqueFilename(id: int, random: seq<Byte>, ext: string): (r: string)
    requires |random| == RandomBytes
    ensures exists h :: |h| == 8 && IsLowerHex(h) && r == IntToString(id) + "_" + h + ext
  {
    EncodeIsLowerHex(random);
    IntToString(id) + "_" + EncodeToString(random) + ext
  }

  /** Names generated from different non-negative ids differ, whatever the random bytes and extensions. */
  lemma DistinctIdsDistinctNames(id1: nat, r1: seq<Byte>, ext1: string, id2: nat, r2: seq<Byte>, ext2: string)
    requires |r1| == RandomBytes && |r2| == RandomBytes && id1 != id2
    ensures GenerateUniqueFilename(id1, r1, ext1) != GenerateUniqueFilename(id2, r2, ext2)
  {
    var a, b := NatToString(id1), NatToString(id2);
    var n1 := a + "_" + EncodeToString(r1) + ext1;
    var n2 := b + "_" + EncodeToString(r2) + ext2;
    if |a| < |b| {
      assert n1[|a|] == '_' && n2[|a|] == b[|a|];
    } else if |b| < |a| {
      assert n2[|b|] == '_' && n1[|b|] == a[|b|];
    } else if a == b {
      NatToStringInjective(id1, id2);
      assert false;
    } else {
      var k :| 0 <= k < |a| && a[k] != b[k];
      assert n1[k] == a[k] && n2[k] == b[k];
    }
  }

  // ---------------------------------------------------------------------------
  // Human-readable sizes
  // ---------------------------------------------------------------------------

  function Pow1024(k: nat): (p: int)
    ensures p >= 1
  {
    if k == 0 then 1 else 1024 * Pow1024(k - 1)
  }

  const Int64Max: int := 0x7FFF_FFFF_FFFF_FFFF
  const UnitLetters: string := "KMGTPE"

  /** A size as FormatFileSize prints it: exact bytes, or a value to divide by `div` shown with a unit letter. */
  datatype SizeText =
    | Exact(text: string)
    | Scaled(div: int, unit: char)

  /**
   * FormatFileSize: `"<n> B"` below 1024; otherwise the largest power of 1024
   * (from 1024 on) not above the size, and its unit letter. The one-decimal
   * rendering of the quotient is not part of the model.
   */
  method FormatFileSize(bytes: int) returns (r: SizeText)
    requires bytes <= Int64Max
    ensures bytes < 1024 <==> r.Exact?
    ensures r.Exact? ==> r.text == IntToString(bytes) + " B"
    ensures r.Scaled? ==> exists exp :: 0 <= exp < |UnitLetters| && r.div == Pow1024(exp + 1) && r.unit == UnitLetters[exp]
    ensures r.Scaled? ==> r.div <= bytes < 1024 * r.div
  {
    if bytes < 1024 {
      return Exact(IntToString(bytes) + " B");
    }
    var div, exp := 1024, 0;
    var n := bytes / 1024;
    while n >= 1024
      invariant 0 <= exp < |UnitLetters| && div == Pow1024(exp + 1)
      invariant n >= 1 && div * n <= bytes < div * (n + 1)
      decreases n
    {
      DivStep(bytes, div, n);
      div := div * 1024;
      exp := exp + 1;
      n := n / 1024;
      ExpBound(exp, bytes, div, n);
    }
    Bracket(bytes, div, n);
    r := Scaled(div, UnitLetters[exp]);
  }

  /** One step of the loop: dividing the quotient by 1024 multiplies the divisor by 1024. */
  lemma DivStep(bytes: int, div: int, n: int)
    requires div >= 1 && n >= 1024 && div * n <= bytes < div * (n + 1)
    ensures n / 1024 >= 1
    ensures (div * 1024) * (n / 1024) <= bytes < (div * 1024) * (n / 1024 + 1)
  {
    var q, k := n / 1024, n % 1024;
    assert n == 1024 * q + k && 0 <= k < 1024;
    assert div * n == (div * 1024) * q + div * k;
    assert div * (n + 1) == (div * 1024) * q + div * (k + 1);
    assert div * (k + 1) <= div * 1024;
    assert (div * 1024) * (q + 1) == (div * 1024) * q + div * 1024;
  }

  /** A quotient in `[1, 1024)` puts the size between the divisor and 1024 times it. */
  lemma Bracket(bytes: int, div: int, n: int)
    requires div >= 1 && 1 <= n < 1024 && div * n <= bytes < div * (n + 1)
    ensures div <= bytes < 1024 * div
  {
    assert div * 1 <= div * n;
    assert div * (n + 1) <= div * 1024;
  }

  /** A power of 1024 within the int64 range is at most the sixth. */
  lemma ExpBound(exp: nat, bytes: int, div: int, n: int)
    requires div == Pow1024(exp + 1) && n >= 1 && div * n <= bytes <= Int64Max
    ensures exp < |UnitLetters|
  {
    assert div * 1 <= div * n;
    if exp >= 6 {
      Pow1024Grows(exp + 1);
      assert false;
    }
  }

  lemma {:induction false} Pow1024Grows(k: nat)
    requires k >= 7
    ensures Pow1024(k) > Int64Max
  {
    if k == 7 {
      assert Pow1024(7) == 1024 * Pow1024(6);
      assert Pow1024(6) == 1024 * Pow1024(5);
      assert Pow1024(5) == 1024 * Pow1024(4);
      assert Pow1024(4) == 1024 * Pow1024(3);
      assert Pow1024(3) == 1024 * Pow1024(2);
      assert Pow1024(2) == 1024 * Pow1024(1);
      assert Pow1024(1) == 1024;
    } else {
      Pow1024Grows(k - 1);
    }
  }

  // ---------------------------------------------------------------------------
  // The upload directory
  // ---------------------------------------------------------------------------

  /** How a file-system call went. */
  datatype RemoveOutcome = Removed | NotExist | RemoveFailed(msg: string)

  /** Drops everything up to and including the first ','; text without a comma is kept. */
  function StripDataPrefix(data: string): (r: string)
    ensures Index(data, ",") < 0 ==> r == data
    ensures Index(data, ",") >= 0 ==> r == data[Index(data, ",") + 1..]
  {
    var idx := Index(data, ",");
    if idx != -1 then data[idx + 1..] else data
  }

  /** After a comma-free data-URI prefix, the text after the comma is what is decoded. */
  lemma StripAfterPrefix(prefix: string, payload: string)
    requires forall i :: 0 <= i < |prefix| ==> prefix[i] != ','
    ensures StripDataPrefix(prefix + "," + payload) == payload
  {
    var s := prefix + "," + payload;
    IndexByte(s, ',');
    assert s[|prefix|] == ',';
    assert s[|prefix| + 1..] == payload;
  }

  /** Hex digits written after a comma-free prefix decode to the bytes they encode. */
  lemma InlineImageRoundTrip(prefix: string, bs: seq<Byte>)
    requires forall i :: 0 <= i < |prefix| ==> prefix[i] != ','
    ensures DecodeString(StripDataPrefix(prefix + "," + EncodeToString(bs))) == Bytes(bs)
  {
    StripAfterPrefix(prefix, EncodeToString(bs));
    DecodeEncode(bs);
  }

  /** Why SaveBase64Image failed. */
  datatype SaveError =
    | DirFailed(msg: string)          // "failed to create upload directory: ..."
    | DecodeFailed(err: DecodeError)  // "failed to decode base64 image: ..."
    | WriteFailed(msg: string)        // "failed to save image: ..."

  class UploadDir {
    var files: map<string, seq<Byte>>

    constructor ()
      ensures files == map[]
    {
      files := map[];
    }

    /** DeleteFile: an empty path and a missing file are no errors; any other failure leaves the file. */
    method DeleteFile(path: string, outcome: RemoveOutcome) returns (err: Option<string>)
      modifies this
      ensures path == "" ==> err.None? && files == old(files)
      ensures path != "" && outcome.RemoveFailed? ==> err == Some(DeleteFailedPrefix + outcome.msg) && files == old(files)
      ensures path != "" && !outcome.RemoveFailed? ==> err.None? && files == old(files) - {path}
      ensures path != "" && err.None? ==> path !in files
    {
      if path == "" {
        return None;
      }
      if outcome.RemoveFailed? {
        return Some(DeleteFailedPrefix + outcome.msg);
      }
      files := files - {path};
      err := None;
    }

    /**
     * SaveBase64Image: strips a data-URI prefix, decodes the rest as hex (not
     * base64), and writes the bytes under a generated name in the directory.
     */
    method SaveBase64Image(data: string, destDir: string, ext: string, id: int, random: seq<Byte>,
                           dirErr: Option<string>, writeErr: Option<string>)
      returns (r: Result<string>, ghost failure: Option<SaveError>)
      requires |random| == RandomBytes
      modifies this
      ensures dirErr.Some? ==> r == Err(DirFailedPrefix + dirErr.value) && failure == Some(DirFailed(dirErr.value))
      ensures dirErr.None? && DecodeString(StripDataPrefix(data)).Failed? ==>
                r == Err(DecodeFailedPrefix + HexErrorText(DecodeString(StripDataPrefix(data)).err))
                && failure == Some(DecodeFailed(DecodeString(StripDataPrefix(data)).err))
      ensures dirErr.None? && DecodeString(StripDataPrefix(data)).Bytes? && writeErr.Some? ==>
                r == Err(SaveFailedPrefix + writeErr.value) && failure == Some(WriteFailed(writeErr.value))
      ensures r.Ok? <==> dirErr.None? && DecodeString(StripDataPrefix(data)).Bytes? && writeErr.None?
      ensures r.Err? ==> files == old(files)
      ensures r.Ok? ==> r.value == Filenames.JoinPath(destDir, GenerateUniqueFilename(id, random, ext))
                        && files == old(files)[r.value := DecodeString(StripDataPrefix(data)).value]
    {
      if dirErr.Some? {
        return Err(DirFailedPrefix + dirErr.value), Some(DirFailed(dirErr.value));
      }
      var payload := StripDataPrefix(data);
      var decoded := DecodeString(payload);
      if decoded.Failed? {
        return Err(DecodeFailedPrefix + HexErrorText(decoded.err)), Some(DecodeFailed(decoded.err));
      }
      var destPath := Filenames.JoinPath(destDir, GenerateUniqueFilename(id, random, ext));
      if writeErr.Some? {
        return Err(SaveFailedPrefix + writeErr.value), Some(WriteFailed(writeErr.value));
      }
      files := files[destPath := decoded.value];
      r, failure := Ok(destPath), None;
    }
  }

  /** Upper-case hexadecimal digit of a nibble. */
  function UpperDigit(n: int): char
    requires 0 <= n < 16
  {
    if n < 10 then ('0' as int + n) as char else ('A' as int + n - 10) as char
  }

  /** strconv.IsPrint for a code point below 256. */
  predicate IsPrintLatin1(r: int)
  {
    (0x20 <= r <= 0x7E) || (0xA1 <= r <= 0xFF && r != 0xAD)
  }

  /** The UTF-8 bytes of a code point below 256. */
  function Utf8Latin1(r: int): string
    requires 0 <= r < 256
  {
    if r < 0x80 then [r as char] else [(0xC0 + r / 64) as char, (0x80 + r % 64) as char]
  }

  /** `%#U` of a byte's code point: `U+00XX`, followed by the quoted character when it is printable. */
  function CodePointText(c: char): string
  {
    var r := c as int % 256;
    "U+00" + [UpperDigit(r / 16), UpperDigit(r % 16)] + (if IsPrintLatin1(r) then " '" + Utf8Latin1(r) + "'" else "")
  }

  /** The text of a decoding error. */
  function HexErrorText(e: DecodeError): string
  {
    match e
    case ErrLength => "encoding/hex: odd length hex string"
    case InvalidByteError(c) => "encoding/hex: invalid byte: " + CodePointText(c)
  }
}
