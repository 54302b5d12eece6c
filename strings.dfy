/**
 * JavaScript string primitives the page script relies on: the `\s` character
 * class, `String.prototype.trim` and `String.prototype.length`.
 */
module JsStrings {

  /**
   * ECMAScript's WhiteSpace and LineTerminator code points.  The regular
   * expression class `\s` and `String.prototype.trim` use exactly this set.
   */
  predicate IsSpace(c: char) {
    c == '\t' || c == '\n' || c == '\U{000B}' || c == '\U{000C}' || c == '\r' || c == ' ' ||
    c == '\U{00A0}' || c == '\U{1680}' || ('\U{2000}' <= c <= '\U{200A}') ||
    c == '\U{2028}' || c == '\U{2029}' || c == '\U{202F}' || c == '\U{205F}' ||
    c == '\U{3000}' || c == '\U{FEFF}'
  }

  /** No character of `s` is white space. */
  predicate NoSpace(s: string) {
    forall k | 0 <= k < |s| :: !IsSpace(s[k])
  }

  /** `s` with its leading white space removed. */
  function TrimStart(s: string): (r: string)
    ensures |r| <= |s| && r == s[|s| - |r|..]
    ensures forall k | 0 <= k < |s| - |r| :: IsSpace(s[k])
    ensures r != [] ==> !IsSpace(r[0])
  {
    if s != [] && IsSpace(s[0]) then TrimStart(s[1..]) else s
  }

  /** `s` with its trailing white space removed. */
  function TrimEnd(s: string): (r: string)
    ensures |r| <= |s| && r == s[..|r|]
    ensures forall k | |r| <= k < |s| :: IsSpace(s[k])
    ensures r != [] ==> !IsSpace(r[|r| - 1])
  {
    if s != [] && IsSpace(s[|s| - 1]) then TrimEnd(s[..|s| - 1]) else s
  }

  /**
   * `String.prototype.trim`: white space dropped from both ends of `s`.
   * TrimIsInfix states which infix of `s` this is, TrimEmpty when it is empty.
   */
  function Trim(s: string): (r: string)
    ensures |r| <= |s|
    ensures r != [] ==> !IsSpace(r[0]) && !IsSpace(r[|r| - 1])
  {
    var t := TrimStart(s);
    var r := TrimEnd(t);
    assert r != [] ==> r[0] == t[0];
    r
  }

  /**
   * `Trim(s)` is the infix of `s` obtained by removing only white space, at
   * its start and at its end.
   */
  lemma TrimIsInfix(s: string)
    ensures var r, i := Trim(s), |s| - |TrimStart(s)|;
      i + |r| <= |s| && r == s[i..i + |r|] &&
      (forall k | 0 <= k < i :: IsSpace(s[k])) &&
      (forall k | i + |r| <= k < |s| :: IsSpace(s[k]))
  {
    var t := TrimStart(s);
    var r := TrimEnd(t);
    var i := |s| - |t|;
    assert t == s[i..];
    assert r == t[..|r|];
    forall k | i + |r| <= k < |s|
      ensures IsSpace(s[k])
    {
      assert s[k] == t[k - i];
    }
  }

  /** `Trim(s)` is empty exactly when `s` is all white space. */
  lemma TrimEmpty(s: string)
    ensures Trim(s) == [] <==> forall k | 0 <= k < |s| :: IsSpace(s[k])
  {
    TrimIsInfix(s);
    var r, i := Trim(s), |s| - |TrimStart(s)|;
    if r != [] {
      assert r[0] == s[i];
    }
  }

  /** One step of `TrimStart`, for callers that work on concrete strings. */
  lemma TrimStartStep(s: string)
    requires s != []
    ensures TrimStart(s) == if IsSpace(s[0]) then TrimStart(s[1..]) else s
  {
  }

  /** One step of `TrimEnd`, for callers that work on concrete strings. */
  lemma TrimEndStep(s: string)
    requires s != []
    ensures TrimEnd(s) == if IsSpace(s[|s| - 1]) then TrimEnd(s[..|s| - 1]) else s
  {
  }

  /** A single blank on each side of a word that has none at its ends is dropped. */
  lemma TrimPadded(x: string)
    requires x != [] && !IsSpace(x[0]) && !IsSpace(x[|x| - 1])
    ensures Trim([' '] + x + [' ']) == x
  {
    var s := [' '] + x + [' '];
    var u := x + [' '];
    assert s[1..] == u;
    TrimStartStep(s);
    TrimStartStep(u);
    assert u[..|u| - 1] == x;
    TrimEndStep(u);
    TrimEndStep(x);
  }

  /** Trimming a string that has no white space at either end changes nothing. */
  lemma {:induction false} TrimOfTrimmed(s: string)
    requires s != [] ==> !IsSpace(s[0]) && !IsSpace(s[|s| - 1])
    ensures Trim(s) == s
  {
    assert TrimStart(s) == s;
    assert TrimEnd(s) == s;
  }

  /** `trim` is idempotent. */
  lemma TrimIdempotent(s: string)
    ensures Trim(Trim(s)) == Trim(s)
  {
    TrimOfTrimmed(Trim(s));
  }

  /** Number of UTF-16 code units needed for `c`. */
  function CodeUnits(c: char): nat {
    if c as int >= 0x10000 then 2 else 1
  }

  /**
   * `String.prototype.length`: JavaScript strings are UTF-16, so a code point
   * outside the Basic Multilingual Plane counts twice.
   */
  function JsLength(s: string): (n: nat)
    ensures |s| <= n <= 2 * |s|
    ensures n == |s| <==> forall k | 0 <= k < |s| :: s[k] as int < 0x10000
  {
    if s == [] then 0 else CodeUnits(s[0]) + JsLength(s[1..])
  }
}
