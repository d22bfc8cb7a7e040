/** String helpers with JavaScript's semantics: `trim`, ASCII `toLowerCase`,
    `includes`/`indexOf`/`startsWith`, `split` and `join` on a string separator,
    and the decimal rendering of integers used by template literals. */
module Text {
  import opened Wrappers

  /** JavaScript's white space and line terminators: the class `\s` of a
      regular expression, and what `String.prototype.trim` removes. */
  predicate IsSpace(c: char) {
    || c == '\t' || c == '\n' || c == '\U{B}' || c == '\U{C}' || c == '\r'
    || c == ' ' || c == '\U{A0}' || c == '\U{1680}'
    || ('\U{2000}' <= c <= '\U{200A}')
    || c == '\U{2028}' || c == '\U{2029}' || c == '\U{202F}' || c == '\U{205F}'
    || c == '\U{3000}' || c == '\U{FEFF}'
  }

  /** The characters a regular-expression `.` does not match. */
  predicate IsLineTerminator(c: char) {
    c == '\n' || c == '\r' || c == '\U{2028}' || c == '\U{2029}'
  }

  predicate IsDigit(c: char) { '0' <= c <= '9' }
  predicate IsUpper(c: char) { 'A' <= c <= 'Z' }
  predicate IsLower(c: char) { 'a' <= c <= 'z' }

  predicate HasNoSpace(s: string) {
    forall i :: 0 <= i < |s| ==> !IsSpace(s[i])
  }

  predicate AllSpace(s: string) {
    forall i :: 0 <= i < |s| ==> IsSpace(s[i])
  }

  /** A string with no white space at either end. */
  predicate IsTrimmed(s: string) {
    s == [] || (!IsSpace(s[0]) && !IsSpace(s[|s| - 1]))
  }

  // ---------------------------------------------------------------------------
  // trim

  /** The suffix of `s` left after dropping its leading white space. */
  function TrimStart(s: string): (r: string)
    ensures |r| <= |s| && r == s[|s| - |r|..]
    ensures r == [] || !IsSpace(r[0])
    ensures AllSpace(s[..|s| - |r|])
  {
    if |s| > 0 && IsSpace(s[0]) then
      var r := TrimStart(s[1..]);
      assert s[1..][..|s| - 1 - |r|] == s[1..|s| - |r|];
      r
    else s
  }

  /** The prefix of `s` left after dropping its trailing white space. */
  function TrimEnd(s: string): (r: string)
    ensures |r| <= |s| && r == s[..|r|]
    ensures r == [] || !IsSpace(r[|r| - 1])
    ensures AllSpace(s[|r|..])
  {
    if |s| > 0 && IsSpace(s[|s| - 1]) then
      var r := TrimEnd(s[..|s| - 1]);
      assert s[..|s| - 1][|r|..] + [s[|s| - 1]] == s[|r|..];
      r
    else s
  }

  /** `String.prototype.trim`: the middle of `s` between its leading and
      trailing white space. */
  function Trim(s: string): (r: string)
    ensures IsTrimmed(r)
    ensures |r| <= |TrimStart(s)| <= |s|
    ensures r == TrimStart(s)[..|r|]
  {
    TrimEnd(TrimStart(s))
  }

  /** Where the trimmed text starts inside `s`. */
  function TrimOffset(s: string): (k: nat)
    ensures k + |Trim(s)| <= |s|
    ensures s[k..k + |Trim(s)|] == Trim(s)
  {
    var t, r := TrimStart(s), Trim(s);
    var k := |s| - |t|;
    assert t == s[k..];
    assert r == t[..|r|];
    assert s[k..k + |r|] == t[..|r|];
    k
  }

  /** `t` sits at offset `k` of `s` with nothing but white space around it. */
  predicate FramedBy(s: string, k: int, t: string) {
    && 0 <= k && k + |t| <= |s| && s[k..k + |t|] == t
    && AllSpace(s[..k]) && AllSpace(s[k + |t|..])
  }

  /** The trimmed text is `s` with white space removed from both ends only. */
  lemma TrimFrames(s: string)
    ensures FramedBy(s, TrimOffset(s), Trim(s))
  {
    var t := TrimStart(s);
    var k := |s| - |t|;
    var r := Trim(s);
    assert t == s[k..];
    assert t[|r|..] == s[k + |r|..];
  }

  /** Conversely, a text with no white space at its ends, framed by white
      space, is what trimming the whole gives back. */
  lemma FramedTrim(s: string, k: int, t: string)
    requires IsTrimmed(t) && FramedBy(s, k, t)
    ensures Trim(s) == t
  {
    if t == [] {
      SpaceAroundNothing(s, k);
      TrimEmpty(s);
    } else {
      var a, m, c := s[..k], s[k..], s[k + |t|..];
      assert s == a + m;
      assert m == t + c;
      assert m[0] == t[0];
      SpaceThenStart(a, m);
      SpaceAtEnd(t, c);
      assert Trim(s) == TrimEnd(m);
    }
  }

  lemma SpaceAroundNothing(s: string, k: int)
    requires FramedBy(s, k, [])
    ensures AllSpace(s)
  {
    forall i | 0 <= i < |s| ensures IsSpace(s[i]) {
      if i < k { assert s[i] == s[..k][i]; } else { assert s[i] == s[k..][i - k]; }
    }
  }

  lemma {:induction false} SpaceThenStart(a: string, b: string)
    requires AllSpace(a) && (b == [] || !IsSpace(b[0]))
    ensures TrimStart(a + b) == b
  {
    if a != [] {
      assert (a + b)[1..] == a[1..] + b;
      assert AllSpace(a[1..]) by {
        forall i | 0 <= i < |a| - 1 ensures IsSpace(a[1..][i]) {
          assert a[1..][i] == a[i + 1];
        }
      }
      SpaceThenStart(a[1..], b);
    } else {
      assert a + b == b;
    }
  }

  lemma {:induction false} SpaceAtEnd(t: string, c: string)
    requires t != [] && !IsSpace(t[|t| - 1]) && AllSpace(c)
    ensures TrimEnd(t + c) == t
  {
    if c != [] {
      var s := t + c;
      assert s[|s| - 1] == c[|c| - 1];
      assert s[..|s| - 1] == t + c[..|c| - 1];
      SpaceAtEnd(t, c[..|c| - 1]);
    } else {
      assert t + c == t;
    }
  }

  /** Trimming leaves nothing exactly when the text is all white space. */
  lemma TrimEmpty(s: string)
    ensures Trim(s) == [] <==> AllSpace(s)
  {
    if AllSpace(s) {
      AllSpaceTrimsAway(s);
    }
    if Trim(s) == [] {
      TrimmedAwayIsSpace(s);
    }
  }

  lemma {:induction false} AllSpaceTrimsAway(s: string)
    requires AllSpace(s)
    ensures TrimStart(s) == []
  {
    if |s| > 0 {
      assert IsSpace(s[0]);
      assert AllSpace(s[1..]) by {
        forall i | 0 <= i < |s| - 1 ensures IsSpace(s[1..][i]) {
          assert s[1..][i] == s[i + 1];
        }
      }
      AllSpaceTrimsAway(s[1..]);
    }
  }

  lemma TrimmedAwayIsSpace(s: string)
    requires Trim(s) == []
    ensures AllSpace(s)
  {
    var t := TrimStart(s);
    var k := |s| - |t|;
    assert AllSpace(t) by {
      assert t[0..] == t;
    }
    assert t == [];
    forall i | 0 <= i < |s| ensures IsSpace(s[i]) {
      assert s[i] == s[..k][i];
    }
  }

  /** Trimming a string that already has no white space at its ends changes
      nothing; in particular `Trim` is idempotent. */
  lemma TrimTrimmed(s: string)
    requires IsTrimmed(s)
    ensures Trim(s) == s
  {
  }

  lemma TrimIdempotent(s: string)
    ensures Trim(Trim(s)) == Trim(s)
  {
    TrimTrimmed(Trim(s));
  }

  /** A trimmed string with one leading blank trims back to itself: how a
      `", "`-joined list splits back apart. */
  lemma TrimLeadingBlank(t: string)
    requires IsTrimmed(t)
    ensures Trim(" " + t) == t
  {
    assert (" " + t)[1..] == t;
    if t != [] {
      assert TrimStart(" " + t) == t;
    }
  }

  // ---------------------------------------------------------------------------
  // case mapping

  function LowerChar(c: char): (r: char)
  {
    if IsUpper(c) then (c as int + 32) as char else c
  }

  /** `toLowerCase` restricted to ASCII letters. */
  function ToLower(s: string): (r: string)
    ensures |r| == |s|
    ensures forall i :: 0 <= i < |s| ==> r[i] == LowerChar(s[i])
  {
    seq(|s|, i requires 0 <= i < |s| => LowerChar(s[i]))
  }

  /** Lower-casing twice is lower-casing once. */
  lemma LowerIdempotent(s: string)
    ensures ToLower(ToLower(s)) == ToLower(s)
  {
    assert forall i :: 0 <= i < |s| ==> LowerChar(LowerChar(s[i])) == LowerChar(s[i]);
  }

  // ---------------------------------------------------------------------------
  // searching

  /** `p` occurs in `s` starting at index `k`. */
  predicate OccursAt(s: string, k: int, p: string) {
    0 <= k && k + |p| <= |s| && s[k..k + |p|] == p
  }

  /** `startsWith`. */
  predicate StartsWith(s: string, p: string) {
    |p| <= |s| && s[..|p|] == p
  }

  /** A one-character pattern occurs where that character is. */
  lemma OccursAtChar(s: string, k: int, c: char)
    ensures OccursAt(s, k, [c]) <==> 0 <= k < |s| && s[k] == c
  {
    if 0 <= k < |s| {
      assert s[k..k + 1] == [s[k]];
    }
  }

  /** A text that does not include a one-character pattern lacks that
      character. */
  lemma NotContainsChar(s: string, c: char)
    requires !Contains(s, [c])
    ensures c !in s
  {
    forall i | 0 <= i < |s| ensures s[i] != c {
      OccursAtChar(s, i, c);
    }
  }

  /** Starting with `a + b` is starting with `a` and then with `b`. */
  lemma StartsWithConcat(s: string, a: string, b: string)
    ensures StartsWith(s, a + b) <==> StartsWith(s, a) && StartsWith(s[|a|..], b)
  {
    if StartsWith(s, a + b) {
      assert s[..|a|] == (a + b)[..|a|];
      assert s[|a|..][..|b|] == s[|a|..|a| + |b|];
    }
    if StartsWith(s, a) && StartsWith(s[|a|..], b) {
      assert s[..|a| + |b|] == s[..|a|] + s[|a|..][..|b|];
    }
  }

  /** The first occurrence of `p` in `s` at or after index `k`. */
  function FindFrom(s: string, p: string, k: nat): (r: Option<nat>)
    ensures r.Some? ==> k <= r.value && OccursAt(s, r.value, p)
    ensures r.Some? ==> forall j :: k <= j < r.value ==> !OccursAt(s, j, p)
    ensures r.None? ==> forall j :: k <= j ==> !OccursAt(s, j, p)
    decreases |s| - k
  {
    if k + |p| > |s| then None
    else if s[k..k + |p|] == p then Some(k)
    else FindFrom(s, p, k + 1)
  }

  /** `indexOf`: the first occurrence of `p` in `s`. */
  function FindFirst(s: string, p: string): (r: Option<nat>)
    ensures r.Some? ==> OccursAt(s, r.value, p)
    ensures r.Some? ==> forall j :: 0 <= j < r.value ==> !OccursAt(s, j, p)
    ensures r.None? <==> forall j :: !OccursAt(s, j, p)
  {
    FindFrom(s, p, 0)
  }

  /** `includes`. */
  predicate Contains(s: string, p: string) {
    FindFirst(s, p).Some?
  }

  /** An occurrence with none before it is the one `FindFirst` reports. */
  lemma FindFirstIs(s: string, p: string, i: nat)
    requires OccursAt(s, i, p)
    requires forall j :: 0 <= j < i ==> !OccursAt(s, j, p)
    ensures FindFirst(s, p) == Some(i)
  {
    var r := FindFirst(s, p);
    assert r.Some?;
    assert !(r.value < i);
    assert !(r.value > i);
  }

  // ---------------------------------------------------------------------------
  // split and join

  /** `parts.join(sep)`. */
  function Join(parts: seq<string>, sep: string): string
  {
    if |parts| == 0 then ""
    else if |parts| == 1 then parts[0]
    else parts[0] + sep + Join(parts[1..], sep)
  }

  /** `s.split(sep)` for a non-empty separator: the pieces between successive
      leftmost non-overlapping occurrences of `sep`. No piece contains the
      separator, and joining the pieces gives `s` back. */
  function SplitOn(s: string, sep: string): (r: seq<string>)
    requires |sep| > 0
    ensures |r| >= 1
    ensures forall k :: 0 <= k < |r| ==> !Contains(r[k], sep)
    ensures Join(r, sep) == s
    decreases |s|
  {
    match FindFirst(s, sep)
    case None => [s]
    case Some(i) =>
      var head := s[..i];
      var rest := SplitOn(s[i + |sep|..], sep);
      forall j | 0 <= j && j + |sep| <= |head|
        ensures OccursAt(head, j, sep) == OccursAt(s, j, sep)
      {
        assert head[j..j + |sep|] == s[j..j + |sep|];
      }
      assert s == head + sep + s[i + |sep|..];
      [head] + rest
  }

  /** No occurrence of `sep` starts inside `p` once `sep` is written after
      it: `p` can be joined with `sep` and found again. */
  predicate CleanBefore(p: string, sep: string) {
    forall k :: 0 <= k < |p| ==> !OccursAt(p + sep, k, sep)
  }

  /** Splitting a join gives the parts back when no separator can be found
      inside a part or across a part's end. */
  lemma {:induction false} SplitJoin(parts: seq<string>, sep: string)
    requires |sep| > 0 && |parts| >= 1
    requires forall k :: 0 <= k < |parts| ==> CleanBefore(parts[k], sep)
    ensures SplitOn(Join(parts, sep), sep) == parts
    decreases |parts|
  {
    var p := parts[0];
    assert CleanBefore(p, sep);
    if |parts| == 1 {
      forall j | 0 <= j && j + |sep| <= |p|
        ensures OccursAt(p, j, sep) == OccursAt(p + sep, j, sep)
      {
        assert p[j..j + |sep|] == (p + sep)[j..j + |sep|];
      }
      assert FindFirst(p, sep).None?;
    } else {
      var rest := Join(parts[1..], sep);
      var s := p + sep + rest;
      assert s[|p|..|p| + |sep|] == sep;
      forall j | 0 <= j < |p|
        ensures OccursAt(s, j, sep) == OccursAt(p + sep, j, sep)
      {
        assert s[j..j + |sep|] == (p + sep)[j..j + |sep|];
      }
      FindFirstIs(s, sep, |p|);
      assert s[|p| + |sep|..] == rest;
      SplitJoin(parts[1..], sep);
    }
  }

  /** A character found neither in the parts nor in the separator is not in
      their join. */
  lemma {:induction false} JoinAvoids(parts: seq<string>, sep: string, c: char)
    requires c !in sep
    requires forall k :: 0 <= k < |parts| ==> c !in parts[k]
    ensures c !in Join(parts, sep)
    decreases |parts|
  {
    if |parts| > 1 {
      JoinAvoids(parts[1..], sep, c);
    }
  }

  /** For a one-character separator, a part is clean exactly when it does
      not contain that character. */
  lemma CleanBeforeChar(p: string, c: char)
    requires c !in p
    ensures CleanBefore(p, [c])
  {
    forall k | 0 <= k < |p| ensures !OccursAt(p + [c], k, [c]) {
      assert (p + [c])[k..k + 1] == [p[k]];
    }
  }

  /** Splitting a join on a one-character separator gives the parts back
      when no part contains that character. */
  lemma SplitJoinChar(parts: seq<string>, c: char)
    requires |parts| >= 1
    requires forall k :: 0 <= k < |parts| ==> c !in parts[k]
    ensures SplitOn(Join(parts, [c]), [c]) == parts
  {
    forall k | 0 <= k < |parts| ensures CleanBefore(parts[k], [c]) {
      CleanBeforeChar(parts[k], c);
    }
    SplitJoin(parts, [c]);
  }

  // ---------------------------------------------------------------------------
  // decimal numbers

  function DigitChar(d: nat): (c: char)
    requires d < 10
    ensures IsDigit(c) && c as int - '0' as int == d
  {
    (d + '0' as int) as char
  }

  /** The decimal text of a natural number, as a template literal prints it. */
  function NatToString(n: nat): (r: string)
    ensures |r| >= 1
    ensures forall i :: 0 <= i < |r| ==> IsDigit(r[i])
    ensures r[0] == '0' ==> n == 0
    decreases n
  {
    if n < 10 then [DigitChar(n)] else NatToString(n / 10) + [DigitChar(n % 10)]
  }

  /** The decimal text of an integer: a minus sign before a negative one. */
  function IntToString(i: int): (r: string)
    ensures |r| >= 1
    ensures ',' !in r && '"' !in r && '\n' !in r
    ensures (i < 0) == (r[0] == '-')
  {
    if i < 0 then "-" + NatToString(-i) else NatToString(i)
  }

  /** The value of a string of decimal digits: the inverse of `NatToString`. */
  function DigitsValue(s: string): nat
  {
    if s == [] then 0
    else
      var d := s[|s| - 1] as int - '0' as int;
      DigitsValue(s[..|s| - 1]) * 10 + (if 0 <= d < 10 then d else 0)
  }

  lemma {:induction false} DigitsRoundTrip(n: nat)
    ensures DigitsValue(NatToString(n)) == n
    decreases n
  {
    var r := NatToString(n);
    if n >= 10 {
      DigitsRoundTrip(n / 10);
      assert r[..|r| - 1] == NatToString(n / 10);
    }
  }

  /** Distinct numbers print differently. */
  lemma NatToStringInjective(m: nat, n: nat)
    requires NatToString(m) == NatToString(n)
    ensures m == n
  {
    DigitsRoundTrip(m);
    DigitsRoundTrip(n);
  }
}
