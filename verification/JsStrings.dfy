/**
 JavaScript strings and byte arrays as the modelled code sees them: a string is
 a sequence of UTF-16 code units, a Uint8Array a sequence of bytes.
 */
module JsStrings {
  type CodeUnit = c: int | 0 <= c < 0x10000
  type JsString = seq<CodeUnit>

  type Byte = b: int | 0 <= b < 256
  type Bytes = seq<Byte>

  /** A string literal of the source. */
  function Ascii(s: string): (r: JsString)
    requires forall i :: 0 <= i < |s| ==> s[i] < 128 as char
    ensures |r| == |s|
    ensures forall i :: 0 <= i < |s| ==> r[i] == s[i] as int
  {
    seq(|s|, i requires 0 <= i < |s| => s[i] as int)
  }

  predicate MatchesAt(s: JsString, pat: JsString, k: int) {
    0 <= k && k + |pat| <= |s| && s[k..k + |pat|] == pat
  }

  /** `s.indexOf(pat, from)`: the first match at or after `from`, or -1. */
  function IndexOf(s: JsString, pat: JsString, from: nat): (k: int)
    ensures k == -1 || (from <= k <= |s| - |pat| && MatchesAt(s, pat, k))
    ensures forall j :: from <= j && (k == -1 || j < k) ==> !MatchesAt(s, pat, j)
    decreases |s| - from
  {
    if from + |pat| > |s| then -1
    else if s[from..from + |pat|] == pat then from
    else IndexOf(s, pat, from + 1)
  }

  /** Searching a suffix finds the same match, counted from the suffix's start. */
  lemma IndexOfSuffix(s: JsString, pat: JsString, i: nat, from: nat)
    requires i <= |s|
    ensures IndexOf(s, pat, i + from)
         == (if IndexOf(s[i..], pat, from) == -1 then -1 else i + IndexOf(s[i..], pat, from))
  {
    forall j | 0 <= j
      ensures MatchesAt(s[i..], pat, j) == MatchesAt(s, pat, i + j)
    {
      if i + j + |pat| <= |s| {
        assert s[i..][j..j + |pat|] == s[i + j..i + j + |pat|];
      }
    }
    var k, k' := IndexOf(s, pat, i + from), IndexOf(s[i..], pat, from);
    if k != -1 {
      assert MatchesAt(s[i..], pat, k - i);
    }
    if k' != -1 {
      assert MatchesAt(s, pat, i + k');
    }
  }

  /** The first match is the one before which there is none. */
  lemma IndexOfIs(s: JsString, pat: JsString, from: nat, k: nat)
    requires from <= k && MatchesAt(s, pat, k)
    requires forall j :: from <= j < k ==> !MatchesAt(s, pat, j)
    ensures IndexOf(s, pat, from) == k
  {
  }

  /** `s.slice(n)` for an `n` that may lie past the end. */
  function Drop<T>(s: seq<T>, n: nat): seq<T> {
    if n <= |s| then s[n..] else []
  }

  function Min(a: int, b: int): int {
    if a < b then a else b
  }
}
