/**
 * File names of downloaded books: the cleaner applied to a title before it
 * becomes a file name, and path joining.
 */
module Filenames {
  import opened GoStrings

  /** The characters of the class `[<>:"/\\|?*]`, invalid in Windows file names. */
  predicate IsInvalidChar(c: char)
  {
    c == '<' || c == '>' || c == ':' || c == '"' || c == '/' || c == '\\' || c == '|' || c == '?' || c == '*'
  }

  /** The characters of the class `[\x00-\x1f\x7f]`. */
  predicate IsControlChar(c: char)
  {
    c <= '\U{001F}' || c == '\U{007F}'
  }

  /** The longest name the cleaner returns, in bytes. */
  const MaxNameLength: nat := 200

  /** The name returned for a title that cleans down to nothing. */
  const Untitled: string := "untitled"

  /** A name the cleaner has nothing to change in. */
  predicate IsCleanName(s: string)
  {
    && 0 < |s| <= MaxNameLength
    && (forall k :: 0 <= k < |s| ==> !IsInvalidChar(s[k]) && !IsControlChar(s[k]))
    && s[|s| - 1] != '.' && s[|s| - 1] != ' '
  }

  /**
   * sanitizeFilename: drops invalid and control characters, trims dots and
   * spaces at the end, keeps at most 200 bytes, and falls back to "untitled".
   */
  function SanitizeFilename(filename: string): (r: string)
    ensures 0 < |r| <= MaxNameLength
  {
    var noInvalid := RemoveClass(filename, IsInvalidChar);
    var noControl := RemoveClass(noInvalid, IsControlChar);
    var trimmed := TrimRightBytes(noControl, {'.', ' '});
    var cut := if |trimmed| > MaxNameLength then trimmed[..MaxNameLength] else trimmed;
    if cut == [] then Untitled else cut
  }

  /** No byte of the cleaned name is invalid or a control character. */
  lemma SanitizeFilenameChars(filename: string)
    ensures var r := SanitizeFilename(filename);
            forall k :: 0 <= k < |r| ==> !IsInvalidChar(r[k]) && !IsControlChar(r[k])
  {
    var noInvalid := RemoveClass(filename, IsInvalidChar);
    var noControl := RemoveClass(noInvalid, IsControlChar);
    var trimmed := TrimRightBytes(noControl, {'.', ' '});
    var cut := if |trimmed| > MaxNameLength then trimmed[..MaxNameLength] else trimmed;
    assert forall c :: c in noControl ==> !IsInvalidChar(c) && !IsControlChar(c);
    assert forall k :: 0 <= k < |cut| ==> cut[k] == noControl[k];
    assert forall k :: 0 <= k < |cut| ==> noControl[k] in noControl;
    if cut == [] { UntitledIsValid(); }
  }

  lemma UntitledIsValid()
    ensures forall k :: 0 <= k < |Untitled| ==> !IsInvalidChar(Untitled[k]) && !IsControlChar(Untitled[k])
  {
    assert Untitled == ['u', 'n', 't', 'i', 't', 'l', 'e', 'd'];
  }

  /** A name the cleaner has nothing to change in comes back as it is. */
  lemma SanitizeCleanName(name: string)
    requires IsCleanName(name)
    ensures SanitizeFilename(name) == name
  {
    SanitizeValidName(name);
  }

  /** A title made only of characters the cleaner drops or trims becomes "untitled". */
  lemma SanitizeNothingLeft(filename: string)
    requires forall k :: 0 <= k < |filename| ==>
               IsInvalidChar(filename[k]) || IsControlChar(filename[k]) || filename[k] == '.' || filename[k] == ' '
    ensures SanitizeFilename(filename) == Untitled
  {
    var noInvalid := RemoveClass(filename, IsInvalidChar);
    var noControl := RemoveClass(noInvalid, IsControlChar);
    assert forall k :: 0 <= k < |noControl| ==> noControl[k] in noControl;
  }

  /** On a name with no character to drop, the cleaner only trims, cuts and falls back. */
  lemma SanitizeValidName(name: string)
    requires forall k :: 0 <= k < |name| ==> !IsInvalidChar(name[k]) && !IsControlChar(name[k])
    ensures var t := TrimRightBytes(name, {'.', ' '});
            var cut := if |t| > MaxNameLength then t[..MaxNameLength] else t;
            SanitizeFilename(name) == if cut == "" then Untitled else cut
  {
    assert RemoveClass(name, IsInvalidChar) == name;
    assert RemoveClass(name, IsControlChar) == name;
  }

  /** A name ending in a dot or a space is always changed by the cleaner. */
  lemma SanitizeChangesTrailingDot(name: string)
    requires |name| > 0 && (name[|name| - 1] == '.' || name[|name| - 1] == ' ')
    ensures SanitizeFilename(name) != name
  {
    var noInvalid := RemoveClass(name, IsInvalidChar);
    var noControl := RemoveClass(noInvalid, IsControlChar);
    var trimmed := TrimRightBytes(noControl, {'.', ' '});
    var cut := if |trimmed| > MaxNameLength then trimmed[..MaxNameLength] else trimmed;
    if cut != [] {
      assert cut[|cut| - 1] == trimmed[|cut| - 1];
    }
  }

  /**
   * Truncation comes after the trim: a valid name longer than 200 bytes that does
   * not end in a dot or a space is cut to its first 200 bytes, whatever they end in.
   */
  lemma SanitizeCutsLongName(name: string)
    requires |name| > MaxNameLength
    requires forall k :: 0 <= k < |name| ==> !IsInvalidChar(name[k]) && !IsControlChar(name[k])
    requires name[|name| - 1] != '.' && name[|name| - 1] != ' '
    ensures SanitizeFilename(name) == name[..MaxNameLength]
  {
    SanitizeValidName(name);
    assert TrimRightBytes(name, {'.', ' '}) == name;
  }

  /** A 201-byte title on which the cleaner is not idempotent. */
  lemma SanitizeNotIdempotent()
    ensures exists name :: SanitizeFilename(SanitizeFilename(name)) != SanitizeFilename(name)
  {
    var name := seq(199, _ => 'a') + ".b";
    assert forall k :: 0 <= k < |name| ==> name[k] == 'a' || name[k] == '.' || name[k] == 'b';
    SanitizeCutsLongName(name);
    SanitizeChangesTrailingDot(SanitizeFilename(name));
  }

  /** The cleaner never lengthens a name, except to fall back on "untitled". */
  lemma SanitizeLength(filename: string)
    ensures |SanitizeFilename(filename)| <= |filename| || SanitizeFilename(filename) == Untitled
  {
  }

  /** A cleaned name as long as the original is the original, or the fallback. */
  lemma SanitizeSameLength(filename: string)
    requires |SanitizeFilename(filename)| == |filename|
    ensures SanitizeFilename(filename) == filename || SanitizeFilename(filename) == Untitled
  {
    var noInvalid := RemoveClass(filename, IsInvalidChar);
    var noControl := RemoveClass(noInvalid, IsControlChar);
    var trimmed := TrimRightBytes(noControl, {'.', ' '});
    if trimmed != [] && |trimmed| <= MaxNameLength {
      RemoveClassSameLength(filename, IsInvalidChar);
      RemoveClassSameLength(noInvalid, IsControlChar);
      assert trimmed == noControl[..|trimmed|];
    }
  }

  /** "untitled" itself is a clean name. */
  lemma UntitledIsClean()
    ensures IsCleanName(Untitled)
  {
    UntitledIsValid();
  }

  /**
   * filepath.Join of a directory and a plain file name. The lexical clean-up Join
   * also performs (collapsing `..`, `.` and repeated separators) is not modelled.
   */
  function JoinPath(dir: string, name: string): (p: string)
    ensures HasSuffix(p, name)
  {
    if dir == "" then name else dir + "/" + name
  }

  /** Joining onto one directory is one-to-one in the file name. */
  lemma JoinPathInjective(dir: string, a: string, b: string)
    requires JoinPath(dir, a) == JoinPath(dir, b)
    ensures a == b
  {
    if dir != "" {
      assert a == JoinPath(dir, a)[|dir| + 1..];
    }
  }
}
