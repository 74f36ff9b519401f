/**
 * The parts of JavaScript's String behaviour that the catalog parser relies on:
 * `trim`, `toLowerCase` (as far as it matters against ASCII labels), `indexOf`,
 * `split` on a one-character separator and `Array.prototype.join`.
 */
module JsText {

  /** The WhiteSpace and LineTerminator code points of ECMA-262: what `trim` removes. */
  predicate IsJsWhitespace(c: char) {
    c == '\t' || c == '\n' || c == '\U{000B}' || c == '\U{000C}' || c == '\r' || c == ' '
    || c == '\U{00A0}' || c == '\U{1680}' || ('\U{2000}' <= c <= '\U{200A}')
    || c == '\U{2028}' || c == '\U{2029}' || c == '\U{202F}' || c == '\U{205F}'
    || c == '\U{3000}' || c == '\U{FEFF}'
  }

  /** The first position at or after `i` that holds a non-whitespace character, or |s|. */
  function SkipBlanks(s: string, i: nat): (k: nat)
    requires i <= |s|
    ensures i <= k <= |s|
    decreases |s| - i
  {
    if i < |s| && IsJsWhitespace(s[i]) then SkipBlanks(s, i + 1) else i
  }

  /** The end of `s[..i]` once its trailing whitespace is dropped. */
  function SkipBlanksBack(s: string, i: nat): (k: nat)
    requires i <= |s|
    ensures k <= i
  {
    if i > 0 && IsJsWhitespace(s[i - 1]) then SkipBlanksBack(s, i - 1) else i
  }

  /** `SkipBlanks` passes over whitespace only and stops at the first other character. */
  lemma {:induction false} SkipBlanksSpec(s: string, i: nat)
    requires i <= |s|
    ensures var k := SkipBlanks(s, i);
      && (forall j :: i <= j < k ==> IsJsWhitespace(s[j]))
      && (k == |s| || !IsJsWhitespace(s[k]))
    decreases |s| - i
  {
    if i < |s| && IsJsWhitespace(s[i]) {
      SkipBlanksSpec(s, i + 1);
    }
  }

  /** `SkipBlanksBack` passes back over whitespace only and stops after the last other character. */
  lemma {:induction false} SkipBlanksBackSpec(s: string, i: nat)
    requires i <= |s|
    ensures var k := SkipBlanksBack(s, i);
      && (forall j :: k <= j < i ==> IsJsWhitespace(s[j]))
      && (k == 0 || !IsJsWhitespace(s[k - 1]))
  {
    if i > 0 && IsJsWhitespace(s[i - 1]) {
      SkipBlanksBackSpec(s, i - 1);
    }
  }

  /** `String.prototype.trim`. */
  function Trim(s: string): string {
    var start := SkipBlanks(s, 0);
    if start == |s| then []
    else
      var end := SkipBlanksBack(s, |s|);
      SkipBlanksSpec(s, 0);
      SkipBlanksBackSpec(s, |s|);
      assert start < end;
      s[start..end]
  }

  /** The trim has no whitespace at either end, is empty exactly for an all-whitespace string, and is a piece of it. */
  lemma TrimSpec(s: string)
    ensures var r := Trim(s);
      && (r == [] || (!IsJsWhitespace(r[0]) && !IsJsWhitespace(r[|r| - 1])))
      && (r == [] <==> forall i :: 0 <= i < |s| ==> IsJsWhitespace(s[i]))
      && exists i, k :: 0 <= i <= k <= |s| && r == s[i..k]
  {
    var start := SkipBlanks(s, 0);
    SkipBlanksSpec(s, 0);
    if start < |s| {
      var end := SkipBlanksBack(s, |s|);
      SkipBlanksBackSpec(s, |s|);
      assert start < end;
    } else {
      assert Trim(s) == s[0..0];
    }
  }

  /** The trim of `s` is the part between its leading and its trailing whitespace. */
  lemma TrimUnique(s: string, lead: nat, body: string)
    requires lead + |body| <= |s| && s[lead..lead + |body|] == body
    requires forall j :: 0 <= j < lead ==> IsJsWhitespace(s[j])
    requires forall j :: lead + |body| <= j < |s| ==> IsJsWhitespace(s[j])
    requires body == [] || (!IsJsWhitespace(body[0]) && !IsJsWhitespace(body[|body| - 1]))
    ensures Trim(s) == body
  {
    var start := SkipBlanks(s, 0);
    SkipBlanksSpec(s, 0);
    if body != [] {
      assert s[lead] == body[0];
      assert s[lead + |body| - 1] == body[|body| - 1];
      var end := SkipBlanksBack(s, |s|);
      SkipBlanksBackSpec(s, |s|);
      assert start == lead;
      assert end == lead + |body|;
    }
  }

  /** A string with no whitespace at either end is its own trim. */
  lemma TrimTrimmed(s: string)
    requires s == [] || (!IsJsWhitespace(s[0]) && !IsJsWhitespace(s[|s| - 1]))
    ensures Trim(s) == s
  {
    TrimUnique(s, 0, s);
  }

  lemma TrimIdempotent(s: string)
    ensures Trim(Trim(s)) == Trim(s)
  {
    TrimSpec(s);
    TrimTrimmed(Trim(s));
  }

  /** Whitespace in front of a string does not change its trim. */
  lemma TrimSkipsLeading(c: char, s: string)
    requires IsJsWhitespace(c)
    ensures Trim([c] + s) == Trim(s)
  {
    var t := [c] + s;
    var r := Trim(s);
    TrimSpec(s);
    var lead := SkipBlanks(s, 0);
    var end := if r == [] then lead else SkipBlanksBack(s, |s|);
    SkipBlanksSpec(s, 0);
    SkipBlanksBackSpec(s, |s|);
    assert r == s[lead..end];
    forall j | 0 <= j < lead + 1 || end + 1 <= j < |t| ensures IsJsWhitespace(t[j]) {
      if j > 0 {
        assert t[j] == s[j - 1];
      }
    }
    assert t[lead + 1..end + 1] == r;
    TrimUnique(t, lead + 1, r);
  }

  /**
   * `toLowerCase` on one code point, restricted to the code points whose lower case
   * is ASCII: A-Z and U+212A KELVIN SIGN (which lowers to 'k'). Every other code point
   * is kept; since it is not ASCII and neither is its real lower case, a comparison
   * with the lower case of an ASCII label comes out the same.
   */
  function LowerChar(c: char): char {
    if 'A' <= c <= 'Z' then (c as int + 32) as char
    else if c == '\U{212A}' then 'k'
    else c
  }

  /** `toLowerCase` of `s[i..]`, one code point at a time. */
  function LowerFrom(s: string, i: nat): (r: string)
    requires i <= |s|
    ensures |r| == |s| - i
    decreases |s| - i
  {
    if i == |s| then [] else [LowerChar(s[i])] + LowerFrom(s, i + 1)
  }

  /** `String.prototype.toLowerCase`. */
  function Lower(s: string): string {
    LowerFrom(s, 0)
  }

  /** Lowering works code point by code point and keeps the length. */
  lemma {:induction false} LowerFromSpec(s: string, i: nat)
    requires i <= |s|
    ensures forall j :: i <= j < |s| ==> LowerFrom(s, i)[j - i] == LowerChar(s[j])
    decreases |s| - i
  {
    if i < |s| {
      LowerFromSpec(s, i + 1);
    }
  }

  lemma LowerSpec(s: string)
    ensures |Lower(s)| == |s|
    ensures forall j :: 0 <= j < |s| ==> Lower(s)[j] == LowerChar(s[j])
  {
    LowerFromSpec(s, 0);
  }

  /** `a.toLowerCase() === b.toLowerCase()`, decided code point by code point from `i` on. */
  predicate SameLowerFrom(a: string, b: string, i: nat)
    requires |a| == |b| && i <= |a|
    decreases |a| - i
  {
    i == |a| || (LowerChar(a[i]) == LowerChar(b[i]) && SameLowerFrom(a, b, i + 1))
  }

  /** `a.toLowerCase() === b.toLowerCase()`. */
  predicate SameLower(a: string, b: string) {
    |a| == |b| && SameLowerFrom(a, b, 0)
  }

  lemma {:induction false} SameLowerFromSpec(a: string, b: string, i: nat)
    requires |a| == |b| && i <= |a|
    ensures SameLowerFrom(a, b, i) <==> forall j :: i <= j < |a| ==> LowerChar(a[j]) == LowerChar(b[j])
    decreases |a| - i
  {
    if i < |a| {
      SameLowerFromSpec(a, b, i + 1);
    }
  }

  /** The comparison agrees with comparing the two lower-cased strings. */
  lemma SameLowerSpec(a: string, b: string)
    ensures SameLower(a, b) <==> Lower(a) == Lower(b)
  {
    LowerSpec(a);
    LowerSpec(b);
    if |a| == |b| {
      SameLowerFromSpec(a, b, 0);
      if SameLower(a, b) {
        assert forall j :: 0 <= j < |a| ==> Lower(a)[j] == Lower(b)[j];
      } else {
        var j :| 0 <= j < |a| && LowerChar(a[j]) != LowerChar(b[j]);
        assert Lower(a)[j] != Lower(b)[j];
      }
    }
  }

  /** The first position at or after `from` that holds `c`, or |s| when there is none. */
  function FindFrom(s: string, c: char, from: nat): (r: nat)
    requires from <= |s|
    ensures from <= r <= |s|
    decreases |s| - from
  {
    if from == |s| || s[from] == c then from else FindFrom(s, c, from + 1)
  }

  /** `FindFrom` passes over other characters only and stops on `c`. */
  lemma {:induction false} FindFromSpec(s: string, c: char, from: nat)
    requires from <= |s|
    ensures var r := FindFrom(s, c, from);
      && (forall j :: from <= j < r ==> s[j] != c)
      && (r < |s| ==> s[r] == c)
    decreases |s| - from
  {
    if from < |s| && s[from] != c {
      FindFromSpec(s, c, from + 1);
    }
  }

  /** The first occurrence of `c` from `from` on is the one with no `c` between. */
  lemma {:induction false} FindFromFirst(s: string, c: char, from: nat, k: nat)
    requires from <= k < |s| && s[k] == c
    requires forall j :: from <= j < k ==> s[j] != c
    ensures FindFrom(s, c, from) == k
    decreases k - from
  {
    if from < k {
      FindFromFirst(s, c, from + 1, k);
    }
  }

  /** `Array.prototype.join` with a one-character separator. */
  function Join(parts: seq<string>, sep: char): string
    decreases |parts|
  {
    if |parts| == 0 then ""
    else if |parts| == 1 then parts[0]
    else parts[0] + [sep] + Join(parts[1..], sep)
  }

  /** The pieces of `s[from..]` between the occurrences of `sep`. */
  function SplitFrom(s: string, sep: char, from: nat): (parts: seq<string>)
    requires from <= |s|
    ensures |parts| >= 1
    decreases |s| - from
  {
    var k := FindFrom(s, sep, from);
    if k == |s| then [s[from..]] else [s[from..k]] + SplitFrom(s, sep, k + 1)
  }

  /** `String.prototype.split` with a one-character separator. */
  function Split(s: string, sep: char): (parts: seq<string>)
    ensures |parts| >= 1
  {
    SplitFrom(s, sep, 0)
  }

  lemma {:induction false} SplitFromJoinsBack(s: string, sep: char, from: nat)
    requires from <= |s|
    ensures Join(SplitFrom(s, sep, from), sep) == s[from..]
    decreases |s| - from
  {
    var k := FindFrom(s, sep, from);
    FindFromSpec(s, sep, from);
    if k < |s| {
      var rest := SplitFrom(s, sep, k + 1);
      SplitFromJoinsBack(s, sep, k + 1);
      var parts := [s[from..k]] + rest;
      assert SplitFrom(s, sep, from) == parts;
      assert parts[1..] == rest;
      assert Join(parts, sep) == s[from..k] + [sep] + Join(rest, sep);
      assert s[from..] == s[from..k] + [sep] + s[k + 1..];
    }
  }

  /** Joining the pieces back with the separator gives `s`. */
  lemma SplitJoinsBack(s: string, sep: char)
    ensures Join(Split(s, sep), sep) == s
  {
    SplitFromJoinsBack(s, sep, 0);
    assert s[0..] == s;
  }

  lemma {:induction false} SplitFromPieces(s: string, sep: char, from: nat)
    requires from <= |s|
    ensures |SplitFrom(s, sep, from)| >= 2 <==> sep in s[from..]
    ensures forall k :: 0 <= k < |SplitFrom(s, sep, from)| ==> sep !in SplitFrom(s, sep, from)[k]
    decreases |s| - from
  {
    var r := FindFrom(s, sep, from);
    FindFromSpec(s, sep, from);
    var parts := SplitFrom(s, sep, from);
    if r == |s| {
      assert sep !in s[from..];
    } else {
      var rest := SplitFrom(s, sep, r + 1);
      SplitFromPieces(s, sep, r + 1);
      assert parts == [s[from..r]] + rest;
      assert s[from..][r - from] == sep;
      forall k | 0 <= k < |parts| ensures sep !in parts[k] {
        if k > 0 {
          assert parts[k] == rest[k - 1];
        }
      }
    }
  }

  /** No piece holds the separator, and there are two pieces or more exactly when `s` holds it. */
  lemma SplitPieces(s: string, sep: char)
    ensures |Split(s, sep)| >= 2 <==> sep in s
    ensures forall k :: 0 <= k < |Split(s, sep)| ==> sep !in Split(s, sep)[k]
  {
    SplitFromPieces(s, sep, 0);
    assert s[0..] == s;
  }

  lemma {:induction false} SplitFromJoin(s: string, sep: char, from: nat, parts: seq<string>)
    requires from <= |s| && |parts| >= 1
    requires forall p <- parts :: sep !in p
    requires s[from..] == Join(parts, sep)
    ensures SplitFrom(s, sep, from) == parts
    decreases |parts|
  {
    var head := parts[0];
    var k := from + |head|;
    assert head in parts;
    if |parts| == 1 {
      assert s[from..] == head;
      FindFromSpec(s, sep, from);
    } else {
      var rest := parts[1..];
      assert s[from..] == head + [sep] + Join(rest, sep);
      assert s[k] == s[from..][|head|];
      forall j | from <= j < k ensures s[j] != sep {
        assert s[j] == s[from..][j - from] == head[j - from];
      }
      FindFromFirst(s, sep, from, k);
      assert s[from..k] == head;
      assert s[k + 1..] == Join(rest, sep);
      SplitFromJoin(s, sep, k + 1, rest);
    }
  }

  /** Splitting a join of separator-free pieces gives the pieces back. */
  lemma SplitJoin(parts: seq<string>, sep: char)
    requires |parts| >= 1
    requires forall p <- parts :: sep !in p
    ensures Split(Join(parts, sep), sep) == parts
  {
    var s := Join(parts, sep);
    assert s[0..] == s;
    SplitFromJoin(s, sep, 0, parts);
  }
}
