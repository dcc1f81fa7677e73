/**
 * The few .NET string operations the printer-server helpers rely on:
 * `string.Trim`, `string.IsNullOrWhiteSpace`, `IndexOf(char)`, `Split(char)`
 * and `StringComparison.OrdinalIgnoreCase`, each over `seq<char>`.
 */
module Text {
  import opened Wrappers

  /** `char.IsWhiteSpace`, restricted to the ASCII controls TAB..CR, SPACE, NEL and NBSP. */
  predicate IsWhite(c: char) {
    c == ' ' || ('\t' <= c <= '\r') || c == '\U{0085}' || c == '\U{00A0}'
  }

  /** `string.IsNullOrWhiteSpace` for a non-null string. */
  predicate IsBlank(s: string) {
    forall i :: 0 <= i < |s| ==> IsWhite(s[i])
  }

  /** Neither end of `s` is white space: what `Trim` leaves. */
  predicate IsTrimmed(s: string) {
    s == [] || (!IsWhite(s[0]) && !IsWhite(s[|s| - 1]))
  }

  /** The first position at or after `i` that is not white space, or the end of `s`. */
  function SkipWhite(s: string, i: nat): (j: nat)
    requires i <= |s|
    ensures i <= j <= |s|
    ensures forall k :: i <= k < j ==> IsWhite(s[k])
    ensures j < |s| ==> !IsWhite(s[j])
    decreases |s| - i
  {
    if i == |s| || !IsWhite(s[i]) then i else SkipWhite(s, i + 1)
  }

  /** The end of `s[lo..hi]` once the white space at its right end is dropped. */
  function SkipWhiteBack(s: string, lo: nat, hi: nat): (e: nat)
    requires lo <= hi <= |s|
    ensures lo <= e <= hi
    ensures forall k :: e <= k < hi ==> IsWhite(s[k])
    ensures e > lo ==> !IsWhite(s[e - 1])
    decreases hi - lo
  {
    if hi == lo || !IsWhite(s[hi - 1]) then hi else SkipWhiteBack(s, lo, hi - 1)
  }

  /** `string.Trim()`: drops the white space at both ends and nothing else. */
  function Trim(s: string): (r: string)
    ensures IsTrimmed(r)
    ensures |r| <= |s|
    ensures r == [] <==> IsBlank(s)
  {
    var lo := SkipWhite(s, 0);
    var hi := SkipWhiteBack(s, lo, |s|);
    assert lo == |s| ==> IsBlank(s);
    s[lo..hi]
  }

  /** `Trim` leaves blank text exactly when it was given blank text. */
  lemma TrimBlank(s: string)
    ensures IsBlank(Trim(s)) <==> IsBlank(s)
  {
    var r := Trim(s);
    if r != [] {
      assert !IsWhite(r[0]);
    }
  }

  /** What `Trim` keeps is a slice of its input, with only white space around it. */
  lemma TrimSlice(s: string) returns (lo: nat)
    ensures lo + |Trim(s)| <= |s| && Trim(s) == s[lo..lo + |Trim(s)|]
    ensures IsBlank(s[..lo]) && IsBlank(s[lo + |Trim(s)|..])
  {
    lo := SkipWhite(s, 0);
    var hi := SkipWhiteBack(s, lo, |s|);
    assert Trim(s) == s[lo..hi];
  }

  /** Every character `Trim` keeps is a character of its input. */
  lemma TrimKeepsChars(s: string, c: char)
    requires c in Trim(s)
    ensures c in s
  {
    var lo := TrimSlice(s);
    var k :| 0 <= k < |Trim(s)| && Trim(s)[k] == c;
    assert s[lo + k] == c;
  }

  /** A character absent from the input is absent from what `Trim` keeps. */
  lemma TrimDropsAbsent(s: string, c: char)
    ensures c !in s ==> c !in Trim(s)
  {
    if c in Trim(s) { TrimKeepsChars(s, c); }
  }

  /** Text that is already trimmed is left alone. */
  lemma TrimTrimmed(s: string)
    requires IsTrimmed(s)
    ensures Trim(s) == s
  {
    var lo := SkipWhite(s, 0);
    if s != [] {
      assert lo == 0;
      assert SkipWhiteBack(s, 0, |s|) == |s|;
    }
  }

  /** `Trim` keeps exactly the slice with only white space around it and none at its ends. */
  lemma TrimUnique(s: string, lo: nat, hi: nat)
    requires lo < hi <= |s|
    requires IsBlank(s[..lo]) && IsBlank(s[hi..])
    requires !IsWhite(s[lo]) && !IsWhite(s[hi - 1])
    ensures Trim(s) == s[lo..hi]
  {
    BlankPrefix(s, lo);
    BlankSuffix(s, hi);
    var j := SkipWhite(s, 0);
    assert j == lo;
    var e := SkipWhiteBack(s, lo, |s|);
    assert e == hi;
  }

  /** A blank prefix, character by character. */
  lemma BlankPrefix(s: string, m: nat)
    requires m <= |s| && IsBlank(s[..m])
    ensures forall i :: 0 <= i < m ==> IsWhite(s[i])
  {
    forall i | 0 <= i < m ensures IsWhite(s[i]) {
      assert s[..m][i] == s[i];
    }
  }

  /** A blank suffix, character by character. */
  lemma BlankSuffix(s: string, m: nat)
    requires m <= |s| && IsBlank(s[m..])
    ensures forall i :: m <= i < |s| ==> IsWhite(s[i])
  {
    forall i | m <= i < |s| ensures IsWhite(s[i]) {
      assert s[m..][i - m] == s[i];
    }
  }

  /** A slice of a suffix is the matching slice of the whole. */
  lemma SameSlice(s: string, m: nat, lo: nat, hi: nat)
    requires m <= lo <= hi <= |s|
    ensures s[m..][lo - m..hi - m] == s[lo..hi]
  {
  }

  /** A slice of a prefix is the matching slice of the whole. */
  lemma SamePrefixSlice(s: string, m: nat, lo: nat, hi: nat)
    requires lo <= hi <= m <= |s|
    ensures s[..m][lo..hi] == s[lo..hi]
  {
  }

  /** White space cut from the front of a string does not change what `Trim` keeps. */
  lemma TrimBlankStart(s: string, m: nat)
    requires m <= |s| && IsBlank(s[..m])
    ensures Trim(s[m..]) == Trim(s)
  {
    var t := Trim(s);
    var lo := TrimSlice(s);
    if t == [] {
      BlankSlice(s, m, |s|);
    } else {
      var hi := lo + |t|;
      assert s[lo] == t[0] && s[hi - 1] == t[|t| - 1];
      BlankPrefix(s, m);
      TrimOfSuffix(s, m, lo, hi);
    }
  }

  /** White space cut from the end of a string does not change what `Trim` keeps. */
  lemma TrimBlankEnd(s: string, m: nat)
    requires m <= |s| && IsBlank(s[m..])
    ensures Trim(s[..m]) == Trim(s)
  {
    var t := Trim(s);
    var lo := TrimSlice(s);
    if t == [] {
      BlankSlice(s, 0, m);
    } else {
      var hi := lo + |t|;
      assert s[lo] == t[0] && s[hi - 1] == t[|t| - 1];
      BlankSuffix(s, m);
      TrimOfPrefix(s, m, lo, hi);
    }
  }

  /** Any slice of blank text is blank. */
  lemma BlankSlice(s: string, i: nat, j: nat)
    requires i <= j <= |s| && IsBlank(s)
    ensures IsBlank(s[i..j])
  {
    assert forall k :: 0 <= k < j - i ==> s[i..j][k] == s[i + k];
  }

  /** `Trim` of a suffix that still holds the whole kept slice. */
  lemma TrimOfSuffix(s: string, m: nat, lo: nat, hi: nat)
    requires m <= lo < hi <= |s| && IsBlank(s[..lo]) && IsBlank(s[hi..])
    requires !IsWhite(s[lo]) && !IsWhite(s[hi - 1])
    ensures Trim(s[m..]) == s[lo..hi]
  {
    var u := s[m..];
    BlankPrefix(s, lo);
    var w := u[..lo - m];
    forall k | 0 <= k < |w| ensures IsWhite(w[k]) {
      assert w[k] == s[m + k];
    }
    assert u[hi - m..] == s[hi..];
    TrimUnique(u, lo - m, hi - m);
    SameSlice(s, m, lo, hi);
  }

  /** `Trim` of a prefix that still holds the whole kept slice. */
  lemma TrimOfPrefix(s: string, m: nat, lo: nat, hi: nat)
    requires lo < hi <= m <= |s| && IsBlank(s[..lo]) && IsBlank(s[hi..])
    requires !IsWhite(s[lo]) && !IsWhite(s[hi - 1])
    ensures Trim(s[..m]) == s[lo..hi]
  {
    var u := s[..m];
    BlankSuffix(s, hi);
    assert u[..lo] == s[..lo];
    forall k | 0 <= k < m - hi ensures IsWhite(u[hi..][k]) {
      assert u[hi..][k] == s[hi + k];
    }
    TrimUnique(u, lo, hi);
    SamePrefixSlice(s, m, lo, hi);
  }

  /** `IndexOf(char)`: the first position of `c` in `s`, or -1 when there is none. */
  function IndexOf(s: string, c: char): (r: int)
    ensures -1 <= r < |s|
    ensures r >= 0 ==> s[r] == c && c !in s[..r]
    ensures r == -1 <==> c !in s
  {
    if s == [] then -1
    else if s[0] == c then 0
    else
      var k := IndexOf(s[1..], c);
      assert s == [s[0]] + s[1..];
      if k < 0 then -1 else k + 1
  }

  /** The text before the first `c`, or all of `s` when there is none. */
  function Before(s: string, c: char): (r: string)
    ensures |r| <= |s| && r == s[..|r|]
    ensures c !in r
    ensures c in s ==> s[|r|] == c
  {
    var k := IndexOf(s, c);
    if k < 0 then s else s[..k]
  }

  /** `IndexOf` finds `c` at `k` when `k` holds `c` and nothing before it does. */
  lemma IndexOfAt(s: string, c: char, k: int)
    requires 0 <= k < |s| && s[k] == c && c !in s[..k]
    ensures IndexOf(s, c) == k
    decreases k
  {
    if k > 0 {
      assert s[0] == s[..k][0];
      assert s[1..][k - 1] == c && s[1..][..k - 1] == s[1..k];
      IndexOfAt(s[1..], c, k - 1);
    }
  }

  /** `Trim` of text with a non-white character at `p` keeps a slice around `p`. */
  lemma TrimAround(s: string, p: nat) returns (lo: nat, hi: nat)
    requires p < |s| && !IsWhite(s[p])
    ensures lo <= p < hi <= |s| && Trim(s) == s[lo..hi] && !IsWhite(s[lo])
    ensures IsBlank(s[..lo]) && IsBlank(s[hi..])
  {
    lo := TrimSlice(s);
    hi := lo + |Trim(s)|;
    BlankPrefix(s, lo);
    BlankSuffix(s, hi);
    assert s[lo] == Trim(s)[0];
  }

  /** The pieces of a slice around the separator `c` in `l + [c] + v`. */
  lemma CutAround(l: string, c: char, v: string, lo: nat, hi: nat, idx: nat)
    requires lo <= |l| < hi <= |l| + 1 + |v| && idx == |l| - lo
    ensures (l + [c] + v)[lo..hi][idx] == c
    ensures (l + [c] + v)[lo..hi][..idx] == l[lo..]
    ensures (l + [c] + v)[lo..hi][idx + 1..] == v[..hi - |l| - 1]
    ensures (l + [c] + v)[..lo] == l[..lo] && (l + [c] + v)[hi..] == v[hi - |l| - 1..]
  {
  }

  /** The first field of `b + q`, cut at `c` after trimming and trimmed again, is `b` trimmed. */
  lemma TrimFirstField(b: string, q: string, c: char)
    requires c !in b && !IsWhite(c) && (q == [] || q[0] == c)
    ensures Trim(Before(Trim(b + q), c)) == Trim(b)
  {
    if q == [] {
      assert b + q == b;
      TrimDropsAbsent(b, c);
      TrimTrimmed(Trim(b));
    } else {
      var v := q[1..];
      assert b + q == b + [c] + v;
      assert (b + [c] + v)[|b|] == c;
      var lo, hi := TrimAround(b + [c] + v, |b|);
      FirstFieldCut(b, c, v, lo, hi);
    }
  }

  /** In a slice of `b + [c] + v` around the `c`, what comes before the first `c` trims to `b` trimmed. */
  lemma FirstFieldCut(b: string, c: char, v: string, lo: nat, hi: nat)
    requires c !in b && lo <= |b| < hi <= |b| + 1 + |v| && IsBlank((b + [c] + v)[..lo])
    ensures Trim(Before((b + [c] + v)[lo..hi], c)) == Trim(b)
  {
    CutAround(b, c, v, lo, hi, |b| - lo);
    assert forall x :: x in b[lo..] ==> x in b;
    IndexOfAt((b + [c] + v)[lo..hi], c, |b| - lo);
    TrimBlankStart(b, lo);
  }

  /** `StartsWith` on one character, as the source uses it for `[`, `]`, `"` and `%`. */
  predicate StartsWithChar(s: string, c: char) {
    |s| > 0 && s[0] == c
  }

  predicate EndsWithChar(s: string, c: char) {
    |s| > 0 && s[|s| - 1] == c
  }

  /** The per-character fold that `OrdinalIgnoreCase` compares with (ASCII letters only). */
  function Upper(c: char): char {
    if 'a' <= c <= 'z' then (c as int - 32) as char else c
  }

  function Fold(s: string): (r: string)
    ensures |r| == |s|
    ensures forall i :: 0 <= i < |s| ==> r[i] == Upper(s[i])
  {
    seq(|s|, i requires 0 <= i < |s| => Upper(s[i]))
  }

  /** `string.Equals(a, b, StringComparison.OrdinalIgnoreCase)`. */
  predicate EqualsIgnoreCase(a: string, b: string) {
    Fold(a) == Fold(b)
  }

  /** `s.StartsWith(p, StringComparison.OrdinalIgnoreCase)`. */
  predicate StartsWithIgnoreCase(s: string, p: string) {
    |p| <= |s| && Fold(s[..|p|]) == Fold(p)
  }

  /** `string.Split(char)`: the pieces between the separators, at least one piece. */
  function Split(s: string, sep: char): (parts: seq<string>)
    ensures |parts| >= 1
    ensures forall i :: 0 <= i < |parts| ==> sep !in parts[i]
    ensures |parts| == 1 <==> sep !in s
    ensures parts[0] == Before(s, sep)
    ensures Join(parts, sep) == s
  {
    var k := IndexOf(s, sep);
    if k < 0 then [s]
    else
      var rest := Split(s[k + 1..], sep);
      CutAt(s, k);
      [s[..k]] + rest
  }

  /** A string is what lies before position `k`, the character at `k`, and what follows. */
  lemma CutAt(s: string, k: int)
    requires 0 <= k < |s|
    ensures s == s[..k] + [s[k]] + s[k + 1..]
  {
  }

  /** `t` occurs in `s` as the run of characters starting at `i`. */
  predicate OccursAt(t: string, s: string, i: int) {
    0 <= i && i + |t| <= |s| && t == s[i..i + |t|]
  }

  /** `string.Join(sep, parts)`, the inverse of `Split`. */
  function Join(parts: seq<string>, sep: char): string
    requires |parts| >= 1
  {
    if |parts| == 1 then parts[0] else parts[0] + [sep] + Join(parts[1..], sep)
  }
}
