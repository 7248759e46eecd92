/**
 * The textual rules a redeemed name goes through before anything external is
 * asked: trimming of the free-text input, and the account-name format
 * `[A-Za-z0-9_]{3,16}` matched against the whole trimmed string.
 */
module NameRules {

  const MinNameLength: nat := 3
  const MaxNameLength: nat := 16

  /** The character class of the name pattern: ASCII letters, ASCII digits and underscore. */
  predicate IsNameChar(c: char) {
    ('A' <= c <= 'Z') || ('a' <= c <= 'z') || ('0' <= c <= '9') || c == '_'
  }

  /** Every character of `s` belongs to the name class. */
  predicate AllNameChars(s: string) {
    forall i :: 0 <= i < |s| ==> IsNameChar(s[i])
  }

  /**
   * Bounded repetition of the name class, `[A-Za-z0-9_]{lo,hi}`, required to
   * cover all of `s` (a full match): one class character is consumed per step.
   */
  function RepeatMatch(s: string, lo: nat, hi: nat): (r: bool)
    decreases |s|
    ensures r ==> lo <= |s| <= hi
  {
    if s == [] then lo == 0
    else hi > 0 && IsNameChar(s[0]) && RepeatMatch(s[1..], if lo == 0 then 0 else lo - 1, hi - 1)
  }

  /** The format check of a candidate account name (a full match of the pattern above). */
  function ValidFormat(name: string): (ok: bool)
    ensures ok ==> MinNameLength <= |name| <= MaxNameLength
  {
    RepeatMatch(name, MinNameLength, MaxNameLength)
  }

  /** The repetition matches exactly the strings of `lo` to `hi` class characters. */
  lemma {:induction false} RepeatMatchMeans(s: string, lo: nat, hi: nat)
    decreases |s|
    ensures RepeatMatch(s, lo, hi) <==> lo <= |s| <= hi && AllNameChars(s)
  {
    if s != [] {
      if hi > 0 {
        RepeatMatchMeans(s[1..], if lo == 0 then 0 else lo - 1, hi - 1);
        assert AllNameChars(s) <==> IsNameChar(s[0]) && AllNameChars(s[1..]) by {
          if IsNameChar(s[0]) && AllNameChars(s[1..]) {
            forall i | 0 <= i < |s| ensures IsNameChar(s[i]) {
              if i > 0 { assert s[i] == s[1..][i - 1]; }
            }
          }
        }
      }
    }
  }

  /** A name has the account-name format exactly when it has 3 to 16 characters, all from the name class. */
  lemma ValidFormatMeans(name: string)
    ensures ValidFormat(name) <==> MinNameLength <= |name| <= MaxNameLength && AllNameChars(name)
  {
    RepeatMatchMeans(name, MinNameLength, MaxNameLength);
  }

  /**
   * The characters that trimming removes: those Python's `str.isspace`
   * accepts, i.e. the characters of Unicode bidirectional class WS, B or S or
   * of general category Zs. These are the controls 9 to 13 and 28 to 31,
   * space, U+0085, and the Unicode space and line/paragraph separators.
   */
  predicate IsSpace(c: char) {
    || c == ' '
    || ('\t' <= c <= '\r')
    || ('\U{1C}' <= c <= '\U{1F}')
    || c == '\U{85}' || c == '\U{A0}' || c == '\U{1680}'
    || ('\U{2000}' <= c <= '\U{200A}')
    || c == '\U{2028}' || c == '\U{2029}' || c == '\U{202F}' || c == '\U{205F}' || c == '\U{3000}'
  }

  predicate AllSpace(s: string) {
    forall i :: 0 <= i < |s| ==> IsSpace(s[i])
  }

  /** `s` has nothing to trim: it is empty or starts and ends with a non-space character. */
  predicate Trimmed(s: string) {
    s == [] || (!IsSpace(s[0]) && !IsSpace(s[|s| - 1]))
  }

  /** Drops the leading run of space characters. */
  function TrimStart(s: string): (r: string)
    decreases |s|
    ensures |r| <= |s|
  {
    if s != [] && IsSpace(s[0]) then TrimStart(s[1..]) else s
  }

  /** Drops the trailing run of space characters. */
  function TrimEnd(s: string): (r: string)
    decreases |s|
    ensures |r| <= |s|
  {
    if s != [] && IsSpace(s[|s| - 1]) then TrimEnd(s[..|s| - 1]) else s
  }

  /** Trimming on both sides. */
  function Strip(s: string): (r: string)
    ensures |r| <= |s|
  {
    TrimEnd(TrimStart(s))
  }

  /**
   * What is left after trimming the front is a suffix of `s` that starts with
   * a non-space character (or is empty), and only space characters were dropped.
   */
  lemma {:induction false} TrimStartShape(s: string)
    decreases |s|
    ensures var r := TrimStart(s);
            && r == s[|s| - |r|..]
            && (r == [] || !IsSpace(r[0]))
            && AllSpace(s[..|s| - |r|])
  {
    if s != [] && IsSpace(s[0]) {
      var t := s[1..];
      TrimStartShape(t);
      var k := |s| - |TrimStart(s)|;
      assert TrimStart(s) == TrimStart(t);
      assert s[k..] == t[k - 1..];
      forall i | 0 <= i < k ensures IsSpace(s[i]) {
        if i > 0 { assert s[i] == t[..k - 1][i - 1]; }
      }
    }
  }

  /**
   * What is left after trimming the back is a prefix of `s` that ends with a
   * non-space character (or is empty), and only space characters were dropped.
   */
  lemma {:induction false} TrimEndShape(s: string)
    decreases |s|
    ensures var r := TrimEnd(s);
            && r == s[..|r|]
            && (r == [] || !IsSpace(r[|r| - 1]))
            && AllSpace(s[|r|..])
  {
    if s != [] && IsSpace(s[|s| - 1]) {
      var t := s[..|s| - 1];
      TrimEndShape(t);
      var n := |TrimEnd(s)|;
      assert TrimEnd(s) == TrimEnd(t);
      assert s[..n] == t[..n];
      forall i | n <= i < |s| ensures IsSpace(s[i]) {
        if i < |s| - 1 { assert s[i] == t[n..][i - n]; }
      }
    }
  }

  /** A stripped string has nothing left to trim. */
  lemma StripTrimmed(s: string)
    ensures Trimmed(Strip(s))
  {
    var front := TrimStart(s);
    var core := TrimEnd(front);
    TrimStartShape(s);
    TrimEndShape(front);
    if core != [] {
      assert core[0] == front[0];
    }
  }

  /** Trimming the front of space characters followed by a string that does not start with one leaves that string. */
  lemma {:induction false} TrimStartPast(pad: string, rest: string)
    requires AllSpace(pad)
    requires rest == [] || !IsSpace(rest[0])
    ensures TrimStart(pad + rest) == rest
  {
    if pad != [] {
      assert (pad + rest)[1..] == pad[1..] + rest;
      TrimStartPast(pad[1..], rest);
    }
  }

  /** Trimming the back of a string that does not end with a space character, followed by space characters, leaves that string. */
  lemma {:induction false} TrimEndPast(rest: string, pad: string)
    requires AllSpace(pad)
    requires rest == [] || !IsSpace(rest[|rest| - 1])
    ensures TrimEnd(rest + pad) == rest
  {
    if pad != [] {
      var s := rest + pad;
      assert s[..|s| - 1] == rest + pad[..|pad| - 1];
      TrimEndPast(rest, pad[..|pad| - 1]);
    }
  }

  /** A trimmed core surrounded by space characters strips to exactly that core. */
  lemma StripPadded(before: string, core: string, after: string)
    requires AllSpace(before) && AllSpace(after) && Trimmed(core)
    ensures Strip(before + core + after) == core
  {
    if core == [] {
      assert before + core + after == before + after;
      TrimStartPast(before + after, []);
      assert before + after + [] == before + after;
    } else {
      assert before + core + after == before + (core + after);
      TrimStartPast(before, core + after);
      TrimEndPast(core, after);
    }
  }

  /** Leading and trailing whitespace around the input never changes what is left after stripping. */
  lemma StripIgnoresPadding(before: string, s: string, after: string)
    requires AllSpace(before) && AllSpace(after)
    ensures Strip(before + s + after) == Strip(s)
  {
    var head, tail := StripSplit(s);
    StripTrimmed(s);
    StripRegrouped(before, head, Strip(s), tail, after);
  }

  /**
   * Every string is its stripped core with a run of space characters on
   * either side: stripping keeps the slice from the first non-space
   * character to the last one.
   */
  lemma StripSplit(s: string) returns (head: string, tail: string)
    ensures s == head + Strip(s) + tail
    ensures AllSpace(head) && AllSpace(tail)
  {
    var front := TrimStart(s);
    var core := TrimEnd(front);
    var k := |s| - |front|;
    TrimStartShape(s);
    TrimEndShape(front);
    head, tail := s[..k], front[|core|..];
    assert s == head + core + tail by { ThreeWaySplit(s, k, |core|); }
  }

  lemma ThreeWaySplit(s: string, k: nat, n: nat)
    requires k + n <= |s|
    ensures s == s[..k] + s[k..][..n] + s[k..][n..]
  {
    assert s[k..] == s[k..][..n] + s[k..][n..];
    assert s == s[..k] + s[k..];
  }

  lemma StripRegrouped(before: string, head: string, core: string, tail: string, after: string)
    requires AllSpace(before) && AllSpace(head) && AllSpace(tail) && AllSpace(after)
    requires Trimmed(core)
    ensures Strip(before + (head + core + tail) + after) == core
  {
    AllSpaceConcat(before, head);
    AllSpaceConcat(tail, after);
    ConcatRegroup(before, head, core, tail, after);
    StripPadded(before + head, core, tail + after);
  }

  lemma ConcatRegroup(a: string, b: string, c: string, d: string, e: string)
    ensures a + (b + c + d) + e == (a + b) + c + (d + e)
  {
  }

  lemma AllSpaceConcat(a: string, b: string)
    requires AllSpace(a) && AllSpace(b)
    ensures AllSpace(a + b)
  {
    forall i | 0 <= i < |a + b| ensures IsSpace((a + b)[i]) {
      if i >= |a| { assert (a + b)[i] == b[i - |a|]; }
    }
  }

  /** Stripping twice is stripping once. */
  lemma StripIdempotent(s: string)
    ensures Strip(Strip(s)) == Strip(s)
  {
    var core := Strip(s);
    StripTrimmed(s);
    assert [] + core + [] == core;
    StripPadded([], core, []);
  }
}
