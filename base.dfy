/**
 * Shared vocabulary: an option type, bytes, and the few QString operations
 * the downloader relies on (trimming, ASCII lower-casing, prefix and suffix
 * tests), written out over `seq<char>`. The functions carry no contracts of
 * their own; what they compute is stated by the lemmas beside them, so that
 * proofs about the window only see these facts where they ask for them.
 */
module Base {

  datatype Option<+T> = None | Some(value: T) {
    function GetOr(default: T): T {
      match this
      case Some(v) => v
      case None => default
    }
  }

  /** The element type of a QByteArray. */
  newtype byte = x: int | 0 <= x < 256

  predicate StartsWith(s: string, prefix: string) {
    |prefix| <= |s| && s[..|prefix|] == prefix
  }

  predicate EndsWith(s: string, suffix: string) {
    |suffix| <= |s| && s[|s| - |suffix|..] == suffix
  }

  /** Whitespace as QString::trimmed removes it (the ASCII part of QChar::isSpace). */
  predicate IsSpace(c: char) {
    c == ' ' || c == '\t' || c == '\n' || c == '\r' || c == '\U{000B}' || c == '\U{000C}'
  }

  /** QString::trimmed: the text with leading and trailing whitespace removed. */
  function Trim(s: string): string
    decreases |s|
  {
    if s == [] then []
    else if IsSpace(s[0]) then Trim(s[1..])
    else if IsSpace(s[|s| - 1]) then Trim(s[..|s| - 1])
    else s
  }

  /** Only whitespace lies before position a and from position b on. */
  predicate SpaceOutside(s: string, a: int, b: int)
    requires 0 <= a <= b <= |s|
  {
    (forall i :: 0 <= i < a ==> IsSpace(s[i])) && (forall i :: b <= i < |s| ==> IsSpace(s[i]))
  }

  /** Trim keeps a contiguous middle s[a..b] of the text and drops only whitespace around it. */
  lemma {:induction false} TrimSlice(s: string) returns (a: nat, b: nat)
    ensures a <= b <= |s| && Trim(s) == s[a..b] && SpaceOutside(s, a, b)
    decreases |s|
  {
    if s == [] {
      a, b := 0, 0;
    } else if IsSpace(s[0]) {
      var t := s[1..];
      var a', b' := TrimSlice(t);
      a, b := a' + 1, b' + 1;
      assert forall i :: 1 <= i < |s| ==> s[i] == t[i - 1];
      assert Trim(s) == t[a'..b'] == s[a..b];
    } else if IsSpace(s[|s| - 1]) {
      var t := s[..|s| - 1];
      a, b := TrimSlice(t);
      assert forall i :: 0 <= i < |t| ==> s[i] == t[i];
      assert Trim(s) == t[a..b] == s[a..b];
    } else {
      a, b := 0, |s|;
      assert Trim(s) == s[0..|s|];
    }
  }

  /** The trimmed text has no whitespace at either end. */
  lemma {:induction false} TrimEnds(s: string)
    ensures Trim(s) == [] || (!IsSpace(Trim(s)[0]) && !IsSpace(Trim(s)[|Trim(s)| - 1]))
    decreases |s|
  {
    if s != [] {
      if IsSpace(s[0]) {
        TrimEnds(s[1..]);
      } else if IsSpace(s[|s| - 1]) {
        TrimEnds(s[..|s| - 1]);
      }
    }
  }

  /** The trimmed text is empty exactly when the text is all whitespace. */
  lemma {:induction false} TrimBlank(s: string)
    ensures Trim(s) == [] <==> forall i :: 0 <= i < |s| ==> IsSpace(s[i])
    decreases |s|
  {
    if s != [] {
      if IsSpace(s[0]) {
        TrimBlank(s[1..]);
        assert forall i :: 1 <= i < |s| ==> s[i] == s[1..][i - 1];
      } else if IsSpace(s[|s| - 1]) {
        TrimBlank(s[..|s| - 1]);
        assert forall i :: 0 <= i < |s| - 1 ==> s[i] == s[..|s| - 1][i];
      }
    }
  }

  function LowerChar(c: char): (d: char)
    ensures (c == '.' || c == '/') ==> d == c
    ensures d == '.' ==> c == '.'
    ensures d == '/' ==> c == '/'
  {
    if 'A' <= c <= 'Z' then (c as int + 32) as char else c
  }

  /** QString::toLower, restricted to ASCII letters. */
  function Lower(s: string): string
    decreases |s|
  {
    if s == [] then [] else [LowerChar(s[0])] + Lower(s[1..])
  }

  /** Lower-casing keeps the length and maps every character on its own. */
  lemma {:induction false} LowerSpec(s: string)
    ensures |Lower(s)| == |s|
    ensures forall i :: 0 <= i < |s| ==> Lower(s)[i] == LowerChar(s[i])
    decreases |s|
  {
    if s != [] {
      LowerSpec(s[1..]);
      assert forall i :: 1 <= i < |s| ==> Lower(s)[i] == Lower(s[1..])[i - 1];
    }
  }
}
