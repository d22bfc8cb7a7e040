/** Input sanitisers: blocking dangerous URL schemes, cleaning file names
    for storage, truncating text for display, and stripping the keys that
    could reach an object's prototype. */
module Sanitize {
  import opened Text

  // ---------------------------------------------------------------------------
  // sanitizeUrl

  const DangerousProtocols: seq<string> := ["javascript:", "data:", "vbscript:", "file:"]

  /** The lower-cased text starts with one of the blocked schemes. */
  predicate Dangerous(t: string) {
    exists k :: 0 <= k < |DangerousProtocols| && StartsWith(ToLower(t), DangerousProtocols[k])
  }

  /** `sanitizeUrl`: empty input and URLs whose trimmed, lower-cased text
      starts with a blocked scheme give ""; any other URL comes back trimmed,
      in its original case. */
  function SanitizeUrl(url: string): (r: string)
    ensures url == "" || Dangerous(Trim(url)) ==> r == ""
    ensures url != "" && !Dangerous(Trim(url)) ==> r == Trim(url)
    ensures !Dangerous(r) && IsTrimmed(r)
  {
    NothingIsDangerous();
    if url == "" then ""
    else
      var trimmed := Trim(url);
      if Dangerous(trimmed) then "" else trimmed
  }

  lemma NothingIsDangerous()
    ensures !Dangerous("")
  {
    assert ToLower("") == "";
    forall k | 0 <= k < |DangerousProtocols|
      ensures !StartsWith("", DangerousProtocols[k])
    {
      assert |DangerousProtocols[k]| > 0;
    }
  }

  /** Sanitising a sanitised URL changes nothing. */
  lemma SanitizeUrlIdempotent(url: string)
    ensures SanitizeUrl(SanitizeUrl(url)) == SanitizeUrl(url)
  {
    var r := SanitizeUrl(url);
    if r != "" {
      TrimIdempotent(url);
    }
  }

  /** A URL with a blocked scheme is refused even when padded or written in
      upper case: `"  JavaScript:alert(1)"` gives "". */
  lemma BlockedSchemeAnyCase(url: string, k: int)
    requires 0 <= k < |DangerousProtocols|
    requires StartsWith(ToLower(Trim(url)), DangerousProtocols[k])
    ensures SanitizeUrl(url) == ""
  {
  }

  // ---------------------------------------------------------------------------
  // sanitizeFilename

  const MaxFilenameLength: int := 255
  const KeptPrefixLength: int := 250

  /** The characters `[a-zA-Z0-9._-]` a stored file name may contain. */
  predicate Allowed(c: char) {
    IsUpper(c) || IsLower(c) || IsDigit(c) || c == '.' || c == '_' || c == '-'
  }

  predicate AllAllowed(s: string) {
    forall i :: 0 <= i < |s| ==> Allowed(s[i])
  }

  /** `s` has two dots in a row somewhere. */
  predicate HasDotDot(s: string) {
    exists i :: 0 <= i < |s| - 1 && s[i] == '.' && s[i + 1] == '.'
  }

  /** `s.replace(/\.\./g, '')`: scanning from the left, every pair of dots
      found is dropped and the scan resumes after it. */
  function RemoveDotDot(s: string): (r: string)
    ensures |r| <= |s|
    ensures !HasDotDot(r)
    decreases |s|, 1
  {
    if |s| >= 2 && s[0] == '.' && s[1] == '.' then RemoveDotDot(s[2..])
    else if s == [] then []
    else
      var rest := RemoveDotDot(s[1..]);
      DotDotFreeCons(s, rest);
      [s[0]] + rest
  }

  /** Keeping a character in front of the scan of the rest adds no pair of
      dots: a kept dot is followed by a character that is not one. */
  lemma DotDotFreeCons(s: string, rest: string)
    requires |s| >= 1 && !(|s| >= 2 && s[0] == '.' && s[1] == '.')
    requires rest == RemoveDotDot(s[1..])
    ensures !HasDotDot([s[0]] + rest)
    decreases |s|, 0
  {
    if s[0] == '.' && |s| >= 2 {
      assert s[1] != '.';
      assert s[1..][0] != '.';
      assert RemoveDotDot(s[1..]) == [s[1]] + RemoveDotDot(s[2..]);
    }
  }

  /** `.replace(/[^a-zA-Z0-9._-]/g, '_')`. */
  function ReplaceDisallowed(s: string): (r: string)
    ensures |r| == |s|
    ensures AllAllowed(r)
    ensures forall i :: 0 <= i < |s| ==> (r[i] == '.' <==> s[i] == '.')
    ensures forall i :: 0 <= i < |s| ==> r[i] == if Allowed(s[i]) then s[i] else '_'
  {
    seq(|s|, i requires 0 <= i < |s| => if Allowed(s[i]) then s[i] else '_')
  }

  /** `cleaned.split('.').pop()`: the text after the last dot, or all of it
      when there is none. */
  function AfterLastDot(s: string): (r: string)
    ensures '.' !in r
    ensures |r| <= |s| && s[|s| - |r|..] == r
    ensures |r| < |s| ==> s[|s| - |r| - 1] == '.'
    ensures '.' !in s ==> r == s
  {
    var parts := SplitOn(s, ".");
    LastPiece(s, parts, '.');
    OnlyPiece(s, '.');
    parts[|parts| - 1]
  }

  /** The last of the pieces a text splits into at a character holds no such
      character, ends the text, and follows the character unless it is the
      whole text. */
  lemma LastPiece(s: string, parts: seq<string>, c: char)
    requires |parts| >= 1 && Join(parts, [c]) == s && !Contains(parts[|parts| - 1], [c])
    ensures var last := parts[|parts| - 1];
      && c !in last
      && |last| <= |s| && s[|s| - |last|..] == last
      && (|last| < |s| ==> s[|s| - |last| - 1] == c)
  {
    var last := parts[|parts| - 1];
    NotContainsChar(last, c);
    JoinEndsWithLast(parts, [c]);
    if |parts| > 1 {
      var w := s[|s| - |last| - 1..|s| - |last|];
      assert w == [c];
      assert s[|s| - |last| - 1] == w[0];
    } else {
      assert parts == [last];
    }
  }

  /** A text without the character is its own only piece. */
  lemma OnlyPiece(s: string, c: char)
    ensures c !in s ==> SplitOn(s, [c]) == [s]
  {
    if c !in s {
      FindFirstNoChar(s, c);
    }
  }

  /** Finding a character that is not there fails. */
  lemma FindFirstNoChar(s: string, c: char)
    requires c !in s
    ensures FindFirst(s, [c]).None?
  {
    forall j ensures !OccursAt(s, j, [c]) {
      OccursAtChar(s, j, c);
    }
  }

  /** A join ends with its last part, which follows a separator when there
      is more than one part. */
  lemma {:induction false} JoinEndsWithLast(parts: seq<string>, sep: string)
    requires |parts| >= 1
    ensures var s := Join(parts, sep); var last := parts[|parts| - 1];
      && |last| <= |s| && s[|s| - |last|..] == last
      && (|parts| > 1 ==> |last| + |sep| <= |s| && s[|s| - |last| - |sep|..|s| - |last|] == sep)
    decreases |parts|
  {
    if |parts| > 1 {
      JoinEndsWithLast(parts[1..], sep);
      var tail := Join(parts[1..], sep);
      var s := parts[0] + sep + tail;
      assert Join(parts, sep) == s;
      var last := parts[|parts| - 1];
      assert parts[1..][|parts[1..]| - 1] == last;
      assert s[|s| - |tail|..] == tail;
      assert s[|s| - |last|..] == tail[|tail| - |last|..];
      if |parts| == 2 {
        assert tail == last;
        assert s[|s| - |last| - |sep|..|s| - |last|] == sep;
      } else {
        assert s[|s| - |last| - |sep|..|s| - |last|] == tail[|tail| - |last| - |sep|..|tail| - |last|];
      }
    }
  }

  /** The name after dropping pairs of dots and replacing disallowed
      characters, before the length limit. */
  function Cleaned(filename: string): (r: string)
    ensures |r| <= |filename|
    ensures AllAllowed(r) && !HasDotDot(r)
  {
    var d := RemoveDotDot(filename);
    ReplaceDisallowed(d)
  }

  /** `sanitizeFilename`: only the characters `[a-zA-Z0-9._-]` remain; a
      cleaned name of at most 255 characters is the result; a longer one is
      cut to its first 250 characters, a dot and its extension. */
  function SanitizeFilename(filename: string): (r: string)
    ensures AllAllowed(r)
    ensures |Cleaned(filename)| <= MaxFilenameLength ==> r == Cleaned(filename)
    ensures |Cleaned(filename)| > MaxFilenameLength ==>
      var c := Cleaned(filename);
      r == c[..KeptPrefixLength] + "." + AfterLastDot(c)
  {
    if filename == "" then ""
    else
      var c := Cleaned(filename);
      if |c| > MaxFilenameLength then
        var ext := AfterLastDot(c);
        AllowedPieces(c, ext);
        c[..KeptPrefixLength] + "." + ext
      else c
  }

  lemma AllowedPieces(c: string, ext: string)
    requires AllAllowed(c) && |c| > KeptPrefixLength
    requires |ext| <= |c| && c[|c| - |ext|..] == ext
    ensures AllAllowed(c[..KeptPrefixLength] + "." + ext)
  {
    var r := c[..KeptPrefixLength] + "." + ext;
    forall i | 0 <= i < |r| ensures Allowed(r[i]) {
      if i > KeptPrefixLength {
        assert r[i] == ext[i - KeptPrefixLength - 1] == c[|c| - |ext| + i - KeptPrefixLength - 1];
      }
    }
  }

  /** A name that stays within the limit has no pair of dots left and is no
      longer than the original. */
  lemma ShortNameSafe(filename: string)
    requires |Cleaned(filename)| <= MaxFilenameLength
    ensures !HasDotDot(SanitizeFilename(filename))
    ensures |SanitizeFilename(filename)| <= |filename|
  {
  }

  /** A long name keeps its extension and is at most 251 characters plus the
      extension's length; without a dot the "extension" is the whole name. */
  lemma LongNameKeepsExtension(filename: string)
    requires |Cleaned(filename)| > MaxFilenameLength
    ensures var c := Cleaned(filename); var r := SanitizeFilename(filename);
      && |r| == KeptPrefixLength + 1 + |AfterLastDot(c)|
      && r[..KeptPrefixLength] == c[..KeptPrefixLength]
      && r[KeptPrefixLength] == '.'
      && ('.' !in c ==> r[KeptPrefixLength + 1..] == c)
  {
    var c := Cleaned(filename);
    var r := SanitizeFilename(filename);
    assert r[KeptPrefixLength + 1..] == AfterLastDot(c);
  }

  /** Sanitising twice is sanitising once, for names within the limit. */
  lemma SanitizeFilenameStable(filename: string)
    requires |Cleaned(filename)| <= MaxFilenameLength
    ensures SanitizeFilename(SanitizeFilename(filename)) == SanitizeFilename(filename)
  {
    var c := SanitizeFilename(filename);
    RemoveDotDotClean(c);
    assert ReplaceDisallowed(c) == c;
  }

  /** The scan drops nothing from a name with no pair of dots. */
  lemma {:induction false} RemoveDotDotClean(s: string)
    requires !HasDotDot(s)
    ensures RemoveDotDot(s) == s
    decreases |s|
  {
    if s != [] {
      RemoveDotDotClean(s[1..]);
    }
  }

  // ---------------------------------------------------------------------------
  // truncate

  /** How many characters `substring(0, maxLength)` keeps of a longer text. */
  function Cut(maxLength: int): nat {
    if maxLength < 0 then 0 else maxLength
  }

  /** `truncate(text, maxLength)`: text within the limit is unchanged; longer
      text is its first `maxLength` characters (none when the limit is
      negative), trimmed, followed by "...". */
  function Truncate(text: string, maxLength: int): (r: string)
    ensures text == "" || |text| <= maxLength ==> r == text
    ensures text != "" && |text| > maxLength ==>
      && |r| >= 3 && r[|r| - 3..] == "..."
      && Cut(maxLength) < |text|
      && IsTrimmed(r[..|r| - 3])
      && FramedBy(text[..Cut(maxLength)], TrimOffset(text[..Cut(maxLength)]), r[..|r| - 3])
  {
    if text == "" || |text| <= maxLength then text
    else
      var cut := Cut(maxLength);
      var prefix := text[..cut];
      var t := Trim(prefix);
      var r := t + "...";
      assert r[..|r| - 3] == t;
      TrimFrames(prefix);
      r
  }

  /** Partner of `Truncate`: what it keeps before the ellipsis is exactly the
      trimmed first `maxLength` characters. */
  lemma TruncatedKeepsTrimmedPrefix(text: string, maxLength: int)
    requires text != "" && |text| > maxLength
    ensures var r := Truncate(text, maxLength);
      && r[..|r| - 3] == Trim(text[..Cut(maxLength)])
  {
    var r := Truncate(text, maxLength);
    var prefix := text[..Cut(maxLength)];
    var kept := r[..|r| - 3];
    FramedTrim(prefix, TrimOffset(prefix), kept);
  }

  // ---------------------------------------------------------------------------
  // sanitizeObject

  const DangerousKeys: set<string> := {"__proto__", "constructor", "prototype"}

  /** `sanitizeObject`: a copy of the object's own properties without
      `__proto__`, `constructor` and `prototype`. */
  function SanitizeObject<V>(obj: map<string, V>): (r: map<string, V>)
    ensures forall key :: key in r <==> key in obj && key !in DangerousKeys
    ensures forall key :: key in r ==> r[key] == obj[key]
  {
    obj - DangerousKeys
  }

  /** An object with none of the dangerous keys is returned as it was, so
      sanitising twice is sanitising once. */
  lemma SanitizeObjectIdempotent<V>(obj: map<string, V>)
    ensures SanitizeObject(SanitizeObject(obj)) == SanitizeObject(obj)
  {
  }
}
