/**
 * The few functions of Go's `strings` and `strconv` packages that the core uses.
 *
 * A Go string is a sequence of bytes. Here it is modelled as a `string` whose every
 * `char` stands for one byte (a value below 256) of the string's UTF-8 form, so that
 * Go's `len(s)`, `s[:n]` and byte-wise comparisons keep their meaning exactly.
 * Non-ASCII literals of the source are therefore written as their UTF-8 bytes.
 */
module GoStrings {

  // ---------------------------------------------------------------------------
  // Prefixes, suffixes and search
  // ---------------------------------------------------------------------------

  predicate HasPrefix(s: string, p: string)
  {
    |p| <= |s| && s[..|p|] == p
  }

  predicate HasSuffix(s: string, p: string)
  {
    |p| <= |s| && s[|s| - |p|..] == p
  }

  /** strings.Index: the first position at which `sub` occurs in `s`, or -1. */
  function Index(s: string, sub: string): (r: int)
    ensures -1 <= r <= |s|
    ensures r >= 0 ==> r + |sub| <= |s|
    decreases |s|
  {
    if HasPrefix(s, sub) then 0
    else if |s| == 0 then -1
    else
      var k := Index(s[1..], sub);
      if k < 0 then -1 else k + 1
  }

  /** Index finds the first occurrence, and -1 means there is none. */
  lemma {:induction false} IndexSpec(s: string, sub: string)
    ensures var r := Index(s, sub);
            && (r >= 0 ==> s[r..r + |sub|] == sub)
            && (r >= 0 ==> forall j :: 0 <= j < r ==> !HasPrefix(s[j..], sub))
            && (r < 0 ==> forall j :: 0 <= j <= |s| ==> !HasPrefix(s[j..], sub))
    decreases |s|
  {
    if !HasPrefix(s, sub) && |s| > 0 {
      IndexSpec(s[1..], sub);
      assert forall j :: 1 <= j <= |s| ==> s[j..] == s[1..][j - 1..];
    }
  }

  /** strings.Contains */
  predicate Contains(s: string, sub: string)
  {
    Index(s, sub) >= 0
  }

  /** A witness position makes `Contains` true. */
  lemma ContainsAt(s: string, sub: string, j: nat)
    requires j + |sub| <= |s| && s[j..j + |sub|] == sub
    ensures Contains(s, sub)
  {
    IndexSpec(s, sub);
    assert HasPrefix(s[j..], sub);
  }

  /** A one-byte needle is contained exactly when that byte occurs. */
  lemma ContainsChar(s: string, c: char)
    ensures Contains(s, [c]) <==> c in s
  {
    if c in s {
      var j :| 0 <= j < |s| && s[j] == c;
      ContainsAt(s, [c], j);
    }
    var r := Index(s, [c]);
    IndexSpec(s, [c]);
    if r >= 0 {
      assert s[r..r + 1] == [c];
      assert s[r] == c;
    }
  }

  /** An occurrence in a prefix is an occurrence in the whole string. */
  lemma ContainsInPrefix(s: string, t: string, sub: string)
    requires Contains(s, sub)
    ensures Contains(s + t, sub)
  {
    var r := Index(s, sub);
    IndexSpec(s, sub);
    assert (s + t)[r..r + |sub|] == s[r..r + |sub|];
    ContainsAt(s + t, sub, r);
  }

  // ---------------------------------------------------------------------------
  // Split, Join, ReplaceAll, TrimPrefix
  // ---------------------------------------------------------------------------

  /** strings.Split for a non-empty separator. */
  function Split(s: string, sep: string): (parts: seq<string>)
    requires |sep| > 0
    ensures |parts| >= 1
    decreases |s|
  {
    var i := Index(s, sep);
    if i < 0 then [s] else [s[..i]] + Split(s[i + |sep|..], sep)
  }

  /** A string without the separator splits into itself alone. */
  lemma SplitWithoutSeparator(s: string, sep: string)
    requires |sep| > 0 && !Contains(s, sep)
    ensures Split(s, sep) == [s]
  {
  }

  /** strings.Join */
  function Join(parts: seq<string>, sep: string): string
  {
    if |parts| == 0 then ""
    else if |parts| == 1 then parts[0]
    else parts[0] + sep + Join(parts[1..], sep)
  }

  /** Where Index finds the separator, the separator is there. */
  lemma IndexFound(s: string, sub: string)
    ensures Index(s, sub) >= 0 ==> s[Index(s, sub)..Index(s, sub) + |sub|] == sub
  {
    IndexSpec(s, sub);
  }

  /** Splitting and joining back with the same separator gives the input back. */
  lemma {:induction false} JoinSplit(s: string, sep: string)
    requires |sep| > 0
    ensures Join(Split(s, sep), sep) == s
    decreases |s|
  {
    var i := Index(s, sep);
    if i >= 0 {
      JoinSplit(s[i + |sep|..], sep);
      JoinSplitStep(s, sep, i);
    } else {
      assert Split(s, sep) == [s];
    }
  }

  /** One step of JoinSplit: the first part, the separator, and the rest joined back. */
  lemma JoinSplitStep(s: string, sep: string, i: nat)
    requires |sep| > 0 && i == Index(s, sep)
    requires Join(Split(s[i + |sep|..], sep), sep) == s[i + |sep|..]
    ensures Join(Split(s, sep), sep) == s
  {
    IndexFound(s, sep);
    var head, rest := s[..i], s[i + |sep|..];
    assert Split(s, sep) == [head] + Split(rest, sep);
    JoinCons(head, Split(rest, sep), sep);
    SliceAround(s, i, sep);
  }

  lemma SliceAround(s: string, i: nat, sub: string)
    requires i + |sub| <= |s| && s[i..i + |sub|] == sub
    ensures s == s[..i] + sub + s[i + |sub|..]
  {
    assert s == s[..i] + s[i..i + |sub|] + s[i + |sub|..];
  }

  lemma JoinCons(head: string, tail: seq<string>, sep: string)
    requires |tail| >= 1
    ensures Join([head] + tail, sep) == head + sep + Join(tail, sep)
  {
    assert ([head] + tail)[1..] == tail;
  }

  /** The part before the first occurrence does not contain the pattern. */
  lemma IndexPrefixFree(s: string, sub: string)
    requires |sub| > 0 && Index(s, sub) >= 0
    ensures !Contains(s[..Index(s, sub)], sub)
  {
    var i := Index(s, sub);
    var head := s[..i];
    if Contains(head, sub) {
      var r := Index(head, sub);
      IndexFound(head, sub);
      assert s[r..][..|sub|] == head[r..r + |sub|];
      IndexSpec(s, sub);
    }
  }

  /** No part produced by Split contains the separator. */
  lemma {:induction false} SplitPartsFree(s: string, sep: string)
    requires |sep| > 0
    ensures forall k :: 0 <= k < |Split(s, sep)| ==> !Contains(Split(s, sep)[k], sep)
    decreases |s|
  {
    var i := Index(s, sep);
    if i >= 0 {
      var head, rest := s[..i], s[i + |sep|..];
      SplitPartsFree(rest, sep);
      IndexPrefixFree(s, sep);
      assert Split(s, sep) == [head] + Split(rest, sep);
      PartsFreeCons(head, Split(rest, sep), sep);
    } else {
      assert Split(s, sep) == [s];
    }
  }

  lemma PartsFreeCons(head: string, tail: seq<string>, sep: string)
    requires !Contains(head, sep)
    requires forall k :: 0 <= k < |tail| ==> !Contains(tail[k], sep)
    ensures forall k :: 0 <= k < |[head] + tail| ==> !Contains(([head] + tail)[k], sep)
  {
    forall k | 0 <= k < |[head] + tail| ensures !Contains(([head] + tail)[k], sep) {
      if k > 0 {
        assert ([head] + tail)[k] == tail[k - 1];
      }
    }
  }

  /** strings.ReplaceAll for a non-empty pattern: left to right, non-overlapping. */
  function ReplaceAll(s: string, pat: string, rep: string): string
    requires |pat| > 0
    decreases |s|
  {
    var i := Index(s, pat);
    if i < 0 then s else s[..i] + rep + ReplaceAll(s[i + |pat|..], pat, rep)
  }

  /** Index of a one-byte pattern: the first position holding that byte, or -1 when none does. */
  lemma {:induction false} IndexByte(s: string, a: char)
    ensures var i := Index(s, [a]);
            && (i >= 0 ==> i < |s| && s[i] == a && forall k :: 0 <= k < i ==> s[k] != a)
            && (i < 0 ==> forall k :: 0 <= k < |s| ==> s[k] != a)
    decreases |s|
  {
    if |s| > 0 {
      assert HasPrefix(s, [a]) <==> s[0] == a;
      if s[0] != a {
        IndexByte(s[1..], a);
      }
    }
  }

  /** Replacing one byte by another rewrites exactly that byte, position by position. */
  lemma {:induction false} ReplaceByteAt(s: string, a: char, b: char)
    ensures |ReplaceAll(s, [a], [b])| == |s|
    ensures forall k :: 0 <= k < |s| ==>
              ReplaceAll(s, [a], [b])[k] == (if s[k] == a then b else s[k])
    decreases |s|
  {
    var i := Index(s, [a]);
    IndexByte(s, a);
    if i >= 0 {
      var rest := s[i + 1..];
      ReplaceByteAt(rest, a, b);
      var r := ReplaceAll(s, [a], [b]);
      assert r == s[..i] + [b] + ReplaceAll(rest, [a], [b]);
      forall k | 0 <= k < |s| ensures r[k] == (if s[k] == a then b else s[k]) {
        if k > i {
          assert r[k] == ReplaceAll(rest, [a], [b])[k - i - 1];
          assert s[k] == rest[k - i - 1];
        }
      }
    }
  }

  /** strings.TrimPrefix */
  function TrimPrefix(s: string, p: string): (r: string)
    ensures HasPrefix(s, p) ==> p + r == s
    ensures !HasPrefix(s, p) ==> r == s
  {
    if HasPrefix(s, p) then s[|p|..] else s
  }

  // ---------------------------------------------------------------------------
  // TrimSpace and cut-set trimming
  // ---------------------------------------------------------------------------

  predicate IsAsciiSpace(c: char)
  {
    c == '\t' || c == '\n' || c == '\U{000B}' || c == '\U{000C}' || c == '\r' || c == ' '
  }

  /**
   * The UTF-8 encodings of the runes unicode.IsSpace accepts beyond ASCII:
   * U+0085, U+00A0 (two bytes) and U+1680, U+2000..U+200A, U+2028, U+2029,
   * U+202F, U+205F, U+3000 (three bytes).
   */
  predicate IsSpace2(e: string)
    requires |e| == 2
  {
    e[0] == '\U{00C2}' && (e[1] == '\U{0085}' || e[1] == '\U{00A0}')
  }

  predicate IsSpace3(e: string)
    requires |e| == 3
  {
    || (e[0] == '\U{00E1}' && e[1] == '\U{009A}' && e[2] == '\U{0080}')
    || (e[0] == '\U{00E2}' && e[1] == '\U{0080}' && ('\U{0080}' <= e[2] <= '\U{008A}' || e[2] == '\U{00A8}' || e[2] == '\U{00A9}' || e[2] == '\U{00AF}'))
    || (e[0] == '\U{00E2}' && e[1] == '\U{0081}' && e[2] == '\U{009F}')
    || (e[0] == '\U{00E3}' && e[1] == '\U{0080}' && e[2] == '\U{0080}')
  }

  /** Length of the white-space rune that starts `s`, or 0. */
  function SpacePrefixLen(s: string): (n: nat)
    ensures n <= |s|
  {
    if |s| >= 1 && IsAsciiSpace(s[0]) then 1
    else if |s| >= 2 && IsSpace2(s[..2]) then 2
    else if |s| >= 3 && IsSpace3(s[..3]) then 3
    else 0
  }

  /** Length of the white-space rune that ends `s`, or 0. */
  function SpaceSuffixLen(s: string): (n: nat)
    ensures n <= |s|
  {
    if |s| >= 1 && IsAsciiSpace(s[|s| - 1]) then 1
    else if |s| >= 2 && IsSpace2(s[|s| - 2..]) then 2
    else if |s| >= 3 && IsSpace3(s[|s| - 3..]) then 3
    else 0
  }

  /** The number of leading bytes that are white-space runes. */
  function LeftSpaceLen(s: string): (k: nat)
    ensures k <= |s|
    decreases |s|
  {
    var n := SpacePrefixLen(s);
    if n == 0 then 0 else n + LeftSpaceLen(s[n..])
  }

  /** The length of `s` without its trailing white-space runes. */
  function RightTrimmedLen(s: string): (k: nat)
    ensures k <= |s|
    decreases |s|
  {
    var n := SpaceSuffixLen(s);
    if n == 0 then |s| else RightTrimmedLen(s[..|s| - n])
  }

  function TrimLeftSpace(s: string): string
  {
    s[LeftSpaceLen(s)..]
  }

  function TrimRightSpace(s: string): string
  {
    s[..RightTrimmedLen(s)]
  }

  /** Trimming leaves no white-space rune at the trimmed end. */
  lemma {:induction false} TrimmedLeft(s: string)
    ensures SpacePrefixLen(TrimLeftSpace(s)) == 0
    decreases |s|
  {
    var n := SpacePrefixLen(s);
    if n > 0 {
      TrimmedLeft(s[n..]);
      assert s[n..][LeftSpaceLen(s[n..])..] == s[LeftSpaceLen(s)..];
    }
  }

  lemma {:induction false} TrimmedRight(s: string)
    ensures SpaceSuffixLen(TrimRightSpace(s)) == 0
    decreases |s|
  {
    var n := SpaceSuffixLen(s);
    if n > 0 {
      TrimmedRight(s[..|s| - n]);
      assert s[..|s| - n][..RightTrimmedLen(s[..|s| - n])] == s[..RightTrimmedLen(s)];
    }
  }

  /** strings.TrimSpace */
  function TrimSpace(s: string): string
  {
    TrimRightSpace(TrimLeftSpace(s))
  }

  /** TrimSpace returns a contiguous piece of its argument. */
  lemma TrimSpaceInfix(s: string)
    ensures exists a: nat, b: nat :: a <= b <= |s| && TrimSpace(s) == s[a..b]
  {
    var a := LeftSpaceLen(s);
    var l := s[a..];
    var b := RightTrimmedLen(l);
    assert TrimSpace(s) == s[a..][..b] == s[a..a + b];
  }

  /** A prefix of a string that starts with no white space starts with none either. */
  lemma SpacePrefixOfPrefix(l: string, r: string)
    requires SpacePrefixLen(l) == 0
    requires |r| <= |l| && r == l[..|r|]
    ensures SpacePrefixLen(r) == 0
  {
    if |r| >= 2 {
      assert r[..2] == l[..2];
    }
    if |r| >= 3 {
      assert r[..3] == l[..3];
    }
  }

  /** TrimSpace is idempotent. */
  lemma TrimSpaceIdempotent(s: string)
    ensures TrimSpace(TrimSpace(s)) == TrimSpace(s)
  {
    var l := TrimLeftSpace(s);
    var r := TrimRightSpace(l);
    TrimmedLeft(s);
    TrimmedRight(l);
    SpacePrefixOfPrefix(l, r);
    assert TrimLeftSpace(r) == r;
  }

  /** The bytes of `cut` removed at both ends; `cut` holds single-byte runes only. */
  function TrimLeftBytes(s: string, cut: set<char>): (r: string)
    ensures |r| <= |s| && r == s[|s| - |r|..]
    ensures |r| > 0 ==> r[0] !in cut
    decreases |s|
  {
    if |s| > 0 && s[0] in cut then TrimLeftBytes(s[1..], cut) else s
  }

  function TrimRightBytes(s: string, cut: set<char>): (r: string)
    ensures |r| <= |s| && r == s[..|r|]
    ensures |r| > 0 ==> r[|r| - 1] !in cut
    ensures (|s| == 0 || s[|s| - 1] !in cut) ==> r == s
    ensures forall k :: |r| <= k < |s| ==> s[k] in cut
    decreases |s|
  {
    if |s| > 0 && s[|s| - 1] in cut then TrimRightBytes(s[..|s| - 1], cut) else s
  }

  /**
   * regexp.ReplaceAllString(s, "") for a class of single-byte characters: every
   * byte in the class is dropped, the others are kept in order.
   */
  function RemoveClass(s: string, drop: char -> bool): (r: string)
    ensures |r| <= |s|
    ensures forall c :: c in r <==> c in s && !drop(c)
    ensures (forall k :: 0 <= k < |s| ==> !drop(s[k])) ==> r == s
  {
    if s == [] then ""
    else
      assert s == [s[0]] + s[1..];
      (if drop(s[0]) then "" else [s[0]]) + RemoveClass(s[1..], drop)
  }

  /** Removal that keeps the length removed nothing. */
  lemma {:induction false} RemoveClassSameLength(s: string, drop: char -> bool)
    requires |RemoveClass(s, drop)| == |s|
    ensures RemoveClass(s, drop) == s
  {
    if s != [] {
      assert s == [s[0]] + s[1..];
      var rest := RemoveClass(s[1..], drop);
      if drop(s[0]) {
        assert false;
      }
      RemoveClassSameLength(s[1..], drop);
    }
  }

  // ---------------------------------------------------------------------------
  // Case mapping
  // ---------------------------------------------------------------------------

  function AsciiUpper(c: char): char
  {
    if 'a' <= c <= 'z' then (c as int - 32) as char else c
  }

  function AsciiLower(c: char): char
  {
    if 'A' <= c <= 'Z' then (c as int + 32) as char else c
  }

  /**
   * strings.ToUpper, as far as the core can observe it. ASCII letters are mapped,
   * and so are the only two runes whose upper case is ASCII: U+0131 (bytes C4 B1)
   * becomes 'I' and U+017F (bytes C5 BF) becomes 'S'. Every other byte is kept;
   * Go maps other non-ASCII runes to other non-ASCII runes, which the core only
   * ever compares with ASCII keywords, so the outcome of those comparisons agrees.
   */
  function ToUpper(s: string): string
    decreases |s|
  {
    if |s| == 0 then ""
    else if |s| >= 2 && s[0] == '\U{00C4}' && s[1] == '\U{00B1}' then "I" + ToUpper(s[2..])
    else if |s| >= 2 && s[0] == '\U{00C5}' && s[1] == '\U{00BF}' then "S" + ToUpper(s[2..])
    else [AsciiUpper(s[0])] + ToUpper(s[1..])
  }

  /**
   * strings.ToLower under the same convention: ASCII letters, U+0130 (bytes C4 B0)
   * becomes 'i' and the Kelvin sign U+212A (bytes E2 84 AA) becomes 'k'.
   */
  function ToLower(s: string): string
    decreases |s|
  {
    if |s| == 0 then ""
    else if |s| >= 2 && s[0] == '\U{00C4}' && s[1] == '\U{00B0}' then "i" + ToLower(s[2..])
    else if |s| >= 3 && s[0] == '\U{00E2}' && s[1] == '\U{0084}' && s[2] == '\U{00AA}' then "k" + ToLower(s[3..])
    else [AsciiLower(s[0])] + ToLower(s[1..])
  }

  /**
   * A non-ASCII byte that is not part of U+0131 or U+017F survives ToUpper: no
   * upper-cased string that contains it equals an ASCII keyword.
   */
  lemma {:induction false} ToUpperKeepsByte(s: string, k: nat)
    requires k < |s| && s[k] >= '\U{0080}'
    requires s[k] !in {'\U{00C4}', '\U{00C5}', '\U{00B1}', '\U{00BF}'}
    ensures s[k] in ToUpper(s)
    decreases |s|
  {
    if k == 0 {
      assert ToUpper(s) == [s[0]] + ToUpper(s[1..]);
    } else if |s| >= 2 && s[0] == '\U{00C4}' && s[1] == '\U{00B1}' {
      ToUpperKeepsByte(s[2..], k - 2);
    } else if |s| >= 2 && s[0] == '\U{00C5}' && s[1] == '\U{00BF}' {
      ToUpperKeepsByte(s[2..], k - 2);
    } else {
      ToUpperKeepsByte(s[1..], k - 1);
    }
  }

  /** On a pure ASCII string ToUpper is the byte-wise ASCII mapping. */
  lemma {:induction false} ToUpperAscii(s: string)
    requires forall k :: 0 <= k < |s| ==> s[k] < '\U{0080}'
    ensures |ToUpper(s)| == |s|
    ensures forall k :: 0 <= k < |s| ==> ToUpper(s)[k] == AsciiUpper(s[k])
    decreases |s|
  {
    if |s| > 0 {
      ToUpperAscii(s[1..]);
    }
  }

  // ---------------------------------------------------------------------------
  // Decimal formatting (strconv.Itoa, fmt's %d)
  // ---------------------------------------------------------------------------

  function DigitChar(d: nat): (c: char)
    requires d < 10
    ensures '0' <= c <= '9'
  {
    ('0' as int + d) as char
  }

  function NatToString(n: nat): (s: string)
    ensures |s| >= 1
    ensures forall k :: 0 <= k < |s| ==> '0' <= s[k] <= '9'
    decreases n
  {
    if n < 10 then [DigitChar(n)] else NatToString(n / 10) + [DigitChar(n % 10)]
  }

  function IntToString(i: int): string
  {
    if i < 0 then "-" + NatToString(-i) else NatToString(i)
  }

  /** Different numbers print differently. */
  lemma {:induction false} NatToStringInjective(a: nat, b: nat)
    requires NatToString(a) == NatToString(b)
    ensures a == b
    decreases a
  {
    var sa, sb := NatToString(a), NatToString(b);
    if a < 10 && b < 10 {
      assert sa[0] == sb[0];
    } else if a < 10 {
      assert false;
    } else if b < 10 {
      assert false;
    } else {
      assert sa[|sa| - 1] == sb[|sb| - 1];
      assert DigitChar(a % 10) == DigitChar(b % 10);
      assert sa[..|sa| - 1] == NatToString(a / 10);
      assert sb[..|sb| - 1] == NatToString(b / 10);
      NatToStringInjective(a / 10, b / 10);
    }
  }
}
