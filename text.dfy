/**
 * The two string operations the scripts rely on: Python's argument-less
 * `str.strip()` and the search for the artist/title separator `" - "`.
 */
module Text {
  import opened Wrappers

  /** The code points for which Python's `str.isspace()` holds; these are what `strip()` removes. */
  predicate IsSpace(c: char) {
    ('\t' <= c <= '\r') || ('\U{1C}' <= c <= ' ') || c == '\U{85}' || c == '\U{A0}'
    || c == '\U{1680}' || ('\U{2000}' <= c <= '\U{200A}') || c == '\U{2028}' || c == '\U{2029}'
    || c == '\U{202F}' || c == '\U{205F}' || c == '\U{3000}'
  }

  predicate AllSpace(s: string) {
    forall i :: 0 <= i < |s| ==> IsSpace(s[i])
  }

  /** Neither the first nor the last character is white space (what `strip()` guarantees). */
  predicate NoEdgeSpace(s: string) {
    s == [] || (!IsSpace(s[0]) && !IsSpace(s[|s| - 1]))
  }

  /** `s.lstrip()`. */
  function TrimStart(s: string): string {
    if s != [] && IsSpace(s[0]) then TrimStart(s[1..]) else s
  }

  /** `s.rstrip()`. */
  function TrimEnd(s: string): string {
    if s != [] && IsSpace(s[|s| - 1]) then TrimEnd(s[..|s| - 1]) else s
  }

  /** `s.strip()`. */
  function Trim(s: string): (r: string)
    ensures |r| <= |s| && NoEdgeSpace(r)
  {
    TrimStartSpec(s);
    TrimEndSpec(TrimStart(s));
    TrimEnd(TrimStart(s))
  }

  /** `lstrip()` drops exactly the longest all-space prefix: what remains is a suffix that does not start with white space. */
  lemma {:induction false} TrimStartSpec(s: string)
    ensures var r := TrimStart(s);
      |r| <= |s| && r == s[|s| - |r|..] && AllSpace(s[..|s| - |r|]) && (r == [] || !IsSpace(r[0]))
  {
    if s != [] && IsSpace(s[0]) {
      TrimStartSpec(s[1..]);
      var r := TrimStart(s[1..]);
      assert s[..|s| - |r|] == [s[0]] + s[1..][..|s[1..]| - |r|];
    }
  }

  /** `rstrip()` drops exactly the longest all-space suffix: what remains is a prefix that does not end with white space. */
  lemma {:induction false} TrimEndSpec(s: string)
    ensures var r := TrimEnd(s);
      |r| <= |s| && r == s[..|r|] && AllSpace(s[|r|..]) && (r == [] || !IsSpace(r[|r| - 1]))
  {
    if s != [] && IsSpace(s[|s| - 1]) {
      TrimEndSpec(s[..|s| - 1]);
      var r := TrimEnd(s[..|s| - 1]);
      assert s[|r|..] == s[..|s| - 1][|r|..] + [s[|s| - 1]];
    }
  }

  /**
   * `strip()` returns a contiguous piece of `s` with only white space cut off
   * on either side, and no white space left at either edge.
   */
  lemma TrimSpec(s: string)
    ensures NoEdgeSpace(Trim(s))
    ensures exists i ::
              0 <= i <= |s| - |Trim(s)| && Trim(s) == s[i..i + |Trim(s)|]
              && AllSpace(s[..i]) && AllSpace(s[i + |Trim(s)|..])
  {
    var t := TrimStart(s);
    TrimStartSpec(s);
    TrimEndSpec(t);
    var r := TrimEnd(t);
    var i := |s| - |t|;
    assert r == s[i..i + |r|];
    assert s[i + |r|..] == t[|r|..];
  }

  /** Trimming a string that already has no white space at its edges changes nothing. */
  lemma TrimUnchanged(s: string)
    requires NoEdgeSpace(s)
    ensures Trim(s) == s
  {
  }

  lemma TrimIdempotent(s: string)
    ensures Trim(Trim(s)) == Trim(s)
  {
    TrimSpec(s);
    TrimUnchanged(Trim(s));
  }

  /** A string made only of white space strips to the empty string. */
  lemma {:induction false} TrimAllSpace(s: string)
    requires AllSpace(s)
    ensures Trim(s) == []
  {
    if s != [] {
      assert IsSpace(s[0]);
      TrimAllSpace(s[1..]);
    }
  }

  /** The separator `extrair_artista_titulo` splits on. */
  const Sep: string := " - "

  /** `Sep` occurs in `s` starting at position `k`, spelled out character by character. */
  predicate SepAt(s: string, k: int) {
    0 <= k && k + 3 <= |s| && s[k] == ' ' && s[k + 1] == '-' && s[k + 2] == ' '
  }

  /** The character-wise test is exactly a comparison of the slice at `k` with `Sep`. */
  lemma SepAtIsSliceMatch(s: string, k: int)
    ensures SepAt(s, k) <==> 0 <= k && k + |Sep| <= |s| && s[k..k + |Sep|] == Sep
  {
    if 0 <= k && k + |Sep| <= |s| && s[k..k + |Sep|] == Sep {
      assert s[k..k + |Sep|][1] == s[k + 1];
      assert s[k..k + |Sep|][2] == s[k + 2];
    }
  }

  /** Python's `" - " in s`. */
  predicate ContainsSep(s: string) {
    exists k :: 0 <= k < |s| && SepAt(s, k)
  }

  /** `k` is the position of the first occurrence of the separator in `s`. */
  predicate FirstSepAt(s: string, k: int) {
    SepAt(s, k) && forall j :: 0 <= j < k ==> !SepAt(s, j)
  }

  /** Leftmost separator at or after `from`. */
  function FindSepFrom(s: string, from: nat): (r: Option<nat>)
    ensures r.Some? ==> from <= r.value && SepAt(s, r.value) && forall j :: from <= j < r.value ==> !SepAt(s, j)
    ensures r.None? ==> forall j :: from <= j ==> !SepAt(s, j)
    decreases |s| - from
  {
    if |s| < from + 3 then None
    else if SepAt(s, from) then Some(from)
    else FindSepFrom(s, from + 1)
  }

  /** The position `str.split(" - ", 1)` cuts at, if any. */
  function FindSep(s: string): (r: Option<nat>)
    ensures r.Some? <==> ContainsSep(s)
    ensures r.Some? ==> FirstSepAt(s, r.value)
  {
    FindSepFrom(s, 0)
  }
}
