/** Small shared wrapper type. */
module Wrappers {
  datatype Option<+T> = None | Some(value: T)
}

/**
 * The string primitives the scraper applies to extracted text: Python's
 * `str.strip`, `str.lower`, `str.isalpha`, `str.join`, `str.replace('\n', ' ')`
 * and the `in` substring test, over Dafny's `string` (a sequence of Unicode
 * scalar values).
 *
 * Whitespace is Python's `str.isspace` exactly (the same set that `\s` matches
 * in a `str` regular expression). Letters, digits and case are ASCII only.
 */
module Text {

  /** Python's `str.isspace()` for one character: the complete list. */
  predicate IsSpace(c: char) {
    || ('\t' <= c <= '\r')                 // \t \n \x0b \x0c \r
    || ('\U{1C}' <= c <= '\U{1F}')         // file, group, record and unit separators
    || c == ' '
    || c == '\U{85}' || c == '\U{A0}' || c == '\U{1680}'
    || ('\U{2000}' <= c <= '\U{200A}')
    || c == '\U{2028}' || c == '\U{2029}' || c == '\U{202F}'
    || c == '\U{205F}' || c == '\U{3000}'
  }

  predicate IsAsciiUpper(c: char) { 'A' <= c <= 'Z' }

  predicate IsAsciiLetter(c: char) { IsAsciiUpper(c) || 'a' <= c <= 'z' }

  predicate IsAsciiDigit(c: char) { '0' <= c <= '9' }

  /** Every character of `s` is whitespace. */
  predicate AllSpace(s: string) {
    forall i :: 0 <= i < |s| ==> IsSpace(s[i])
  }

  /** `s` neither starts nor ends with whitespace (vacuously true of ""). */
  predicate IsTrimmed(s: string) {
    s == [] || (!IsSpace(s[0]) && !IsSpace(s[|s| - 1]))
  }

  /** Python's `str.isalpha()` restricted to ASCII: non-empty, letters only. */
  predicate IsAlpha(w: string) {
    |w| > 0 && forall i :: 0 <= i < |w| ==> IsAsciiLetter(w[i])
  }

  /** Removes leading whitespace. */
  function TrimStart(s: string): string {
    if |s| > 0 && IsSpace(s[0]) then TrimStart(s[1..]) else s
  }

  /** Removes trailing whitespace. */
  function TrimEnd(s: string): string {
    if |s| > 0 && IsSpace(s[|s| - 1]) then TrimEnd(s[..|s| - 1]) else s
  }

  /** `TrimStart` leaves a suffix, removes only whitespace, and stops at a non-whitespace character. */
  lemma TrimStartSpec(s: string)
    ensures |TrimStart(s)| <= |s| && TrimStart(s) == s[|s| - |TrimStart(s)|..]
    ensures forall i :: 0 <= i < |s| - |TrimStart(s)| ==> IsSpace(s[i])
    ensures TrimStart(s) == [] || !IsSpace(TrimStart(s)[0])
  {
    TrimStartSuffix(s);
    TrimStartRemovesSpace(s);
    TrimStartStops(s);
  }

  lemma {:induction false} TrimStartSuffix(s: string)
    ensures |TrimStart(s)| <= |s| && TrimStart(s) == s[|s| - |TrimStart(s)|..]
  {
    if |s| > 0 && IsSpace(s[0]) {
      var r := TrimStart(s[1..]);
      TrimStartSuffix(s[1..]);
      assert s[1..][|s| - 1 - |r|..] == s[|s| - |r|..];
    }
  }

  lemma {:induction false} TrimStartRemovesSpace(s: string)
    ensures |TrimStart(s)| <= |s|
    ensures forall i :: 0 <= i < |s| - |TrimStart(s)| ==> IsSpace(s[i])
  {
    if |s| > 0 && IsSpace(s[0]) {
      var r := TrimStart(s[1..]);
      TrimStartRemovesSpace(s[1..]);
      forall i | 1 <= i < |s| - |r|
        ensures IsSpace(s[i])
      {
        assert s[i] == s[1..][i - 1];
      }
    }
  }

  lemma {:induction false} TrimStartStops(s: string)
    ensures TrimStart(s) == [] || !IsSpace(TrimStart(s)[0])
  {
    if |s| > 0 && IsSpace(s[0]) {
      TrimStartStops(s[1..]);
    }
  }

  /** `TrimEnd` leaves a prefix, removes only whitespace, and stops at a non-whitespace character. */
  lemma {:induction false} TrimEndSpec(s: string)
    ensures |TrimEnd(s)| <= |s| && TrimEnd(s) == s[..|TrimEnd(s)|]
    ensures forall i :: |TrimEnd(s)| <= i < |s| ==> IsSpace(s[i])
    ensures TrimEnd(s) == [] || !IsSpace(TrimEnd(s)[|TrimEnd(s)| - 1])
  {
    if |s| > 0 && IsSpace(s[|s| - 1]) {
      var r := TrimEnd(s[..|s| - 1]);
      TrimEndSpec(s[..|s| - 1]);
      assert s[..|s| - 1][..|r|] == s[..|r|];
      forall i | |r| <= i < |s| - 1
        ensures IsSpace(s[i])
      {
        assert s[i] == s[..|s| - 1][i];
      }
    }
  }

  /** `s` is `r` with only whitespace around it, `r` starting at position `lead`. */
  predicate Padded(s: string, lead: nat, r: string) {
    && lead + |r| <= |s|
    && s[lead..lead + |r|] == r
    && AllSpace(s[..lead])
    && AllSpace(s[lead + |r|..])
  }

  /** Python's `str.strip()`: whitespace removed from both ends. */
  function Strip(s: string): string {
    TrimEnd(TrimStart(s))
  }

  /**
   * What stripping means: `s` is some whitespace, then the result, then some
   * whitespace, and the result has no whitespace at either end.
   */
  lemma StripSpec(s: string)
    ensures IsTrimmed(Strip(s))
    ensures exists lead :: Padded(s, lead, Strip(s))
  {
    var t := TrimStart(s);
    var u := TrimEnd(t);
    TrimStartSpec(s);
    TrimEndSpec(t);
    var lead := |s| - |t|;
    SpaceAfterTrim(s, lead, t, u);
    PaddedByIndex(s, lead, u);
    assert u == [] || t[0] == u[0];
  }

  /** What `TrimEnd` removes from the suffix `t` of `s` is whitespace of `s`. */
  lemma SpaceAfterTrim(s: string, lead: nat, t: string, u: string)
    requires lead + |t| == |s| && t == s[lead..]
    requires |u| <= |t| && u == t[..|u|]
    requires forall i :: |u| <= i < |t| ==> IsSpace(t[i])
    ensures s[lead..lead + |u|] == u
    ensures forall i :: lead + |u| <= i < |s| ==> IsSpace(s[i])
  {
    forall i | lead + |u| <= i < |s|
      ensures IsSpace(s[i])
    {
      assert s[i] == t[i - lead];
    }
  }

  /** Whitespace before and after `r`, stated position by position, makes `s` a padded `r`. */
  lemma PaddedByIndex(s: string, lead: nat, r: string)
    requires lead + |r| <= |s| && s[lead..lead + |r|] == r
    requires forall i :: 0 <= i < lead ==> IsSpace(s[i])
    requires forall i :: lead + |r| <= i < |s| ==> IsSpace(s[i])
    ensures Padded(s, lead, r)
  {
    var rest := s[lead + |r|..];
    forall i | 0 <= i < |rest|
      ensures IsSpace(rest[i])
    {
      assert rest[i] == s[lead + |r| + i];
    }
    assert AllSpace(s[..lead]);
  }

  /** Stripping a string that has no whitespace at either end changes nothing. */
  lemma {:induction false} StripTrimmed(s: string)
    requires IsTrimmed(s)
    ensures Strip(s) == s
  {
    assert TrimStart(s) == s;
    assert TrimEnd(s) == s;
  }

  /** Python's `str.lower()` on one character, ASCII only. */
  function LowerChar(c: char): char {
    if IsAsciiUpper(c) then (c as int + 32) as char else c
  }

  /** No ASCII upper-case letter occurs in `s`. */
  predicate IsLower(s: string) {
    forall i :: 0 <= i < |s| ==> !IsAsciiUpper(s[i])
  }

  /** Python's `str.lower()`, ASCII only. */
  function Lower(s: string): (r: string)
    ensures |r| == |s|
    ensures forall i :: 0 <= i < |s| ==> r[i] == LowerChar(s[i])
  {
    seq(|s|, i requires 0 <= i < |s| => LowerChar(s[i]))
  }

  /**
   * Lowercasing yields a lowercase string, and it only changes upper-case
   * letters, each to the letter 32 code points later.
   */
  lemma LowerIsLower(s: string)
    ensures IsLower(Lower(s))
    ensures forall i :: 0 <= i < |s| && !IsAsciiUpper(s[i]) ==> Lower(s)[i] == s[i]
    ensures forall i :: 0 <= i < |s| && IsAsciiUpper(s[i]) ==>
              IsAsciiLetter(Lower(s)[i]) && Lower(s)[i] as int == s[i] as int + 32
  {
  }

  /** Lowercasing a lowercase string changes nothing; so lowercasing is idempotent. */
  lemma LowerFixesLower(s: string)
    requires IsLower(s)
    ensures Lower(s) == s
  {
  }

  lemma LowerIdempotent(s: string)
    ensures Lower(Lower(s)) == Lower(s)
  {
    LowerIsLower(s);
    LowerFixesLower(Lower(s));
  }

  /** Python's `sep.join(parts)`. */
  function Join(sep: string, parts: seq<string>): (r: string)
    ensures parts == [] ==> r == []
    ensures |parts| == 1 ==> r == parts[0]
  {
    if parts == [] then []
    else if |parts| == 1 then parts[0]
    else parts[0] + sep + Join(sep, parts[1..])
  }

  /** Joining one more part appends the separator and then the part. */
  lemma {:induction false} JoinAppend(sep: string, parts: seq<string>, x: string)
    requires parts != []
    ensures Join(sep, parts + [x]) == Join(sep, parts) + sep + x
    decreases |parts|
  {
    if |parts| == 1 {
      assert (parts + [x])[1..] == [x];
    } else {
      assert (parts + [x])[1..] == parts[1..] + [x];
      JoinAppend(sep, parts[1..], x);
    }
  }

  /** Python's `s.replace('\n', ' ')`. */
  function ReplaceNewlines(s: string): (r: string)
    ensures |r| == |s| && '\n' !in r
    ensures forall i :: 0 <= i < |s| && s[i] != '\n' ==> r[i] == s[i]
    ensures forall i :: 0 <= i < |s| && s[i] == '\n' ==> r[i] == ' '
  {
    seq(|s|, i requires 0 <= i < |s| => if s[i] == '\n' then ' ' else s[i])
  }

  /** `sub` occurs in `s` starting at position `i`. */
  predicate OccursAt(s: string, sub: string, i: nat) {
    i + |sub| <= |s| && forall k :: 0 <= k < |sub| ==> s[i + k] == sub[k]
  }

  /** Python's `sub in s`, written as a scan over the start positions. */
  function Contains(s: string, sub: string): (b: bool)
    ensures b <==> exists i: nat :: OccursAt(s, sub, i)
  {
    if sub <= s then
      assert OccursAt(s, sub, 0);
      true
    else if |s| == 0 then false
    else
      var b := Contains(s[1..], sub);
      assert forall i: nat :: OccursAt(s, sub, i + 1) <==> OccursAt(s[1..], sub, i) by {
        forall i: nat ensures OccursAt(s, sub, i + 1) <==> OccursAt(s[1..], sub, i) {
        }
      }
      assert !b ==> forall i: nat :: !OccursAt(s, sub, i) by {
        if !b {
          forall i: nat ensures !OccursAt(s, sub, i) {
            if i > 0 { assert !OccursAt(s[1..], sub, i - 1); }
          }
        }
      }
      b
  }
}
