/**
 * The pure string helpers of the driver-and-share page: the share-name
 * sanitiser applied to whatever the administrator typed, the quoting of values
 * pasted into single-quoted PowerShell literals, and the filter that turns the
 * `Name|DistinguishedName` lines printed by the Active Directory query into
 * organisational-unit choices.
 */
module DriverAndSharePage {
  import opened Wrappers
  import opened Text
  import opened Lists

  // ---------------------------------------------------------------------------
  // Share names
  // ---------------------------------------------------------------------------

  /** The name used when the input leaves nothing usable. */
  const DefaultShareName: string := "Printer"

  /** Longest share name produced. */
  const MaxShareNameLength: nat := 60

  /** `char.IsLetterOrDigit`, restricted to ASCII letters and digits. */
  predicate IsLetterOrDigit(c: char) {
    'a' <= c <= 'z' || 'A' <= c <= 'Z' || '0' <= c <= '9'
  }

  /** A character allowed in a share name. */
  predicate IsShareChar(c: char) {
    IsLetterOrDigit(c) || c == '_' || c == '-'
  }

  predicate AllShareChars(s: string) {
    forall i :: 0 <= i < |s| ==> IsShareChar(s[i])
  }

  /** A `__` starts at position `i` of `s`. */
  predicate DoubleAt(s: string, i: int) {
    0 <= i < |s| - 1 && s[i] == '_' && s[i + 1] == '_'
  }

  /** `__` occurs in `s` (ordinal `Contains`). */
  predicate HasDoubleUnderscore(s: string) {
    exists i :: 0 <= i < |s| - 1 && DoubleAt(s, i)
  }

  /** A share name that the sanitiser leaves unchanged. */
  predicate IsValidShareName(s: string) {
    1 <= |s| <= MaxShareNameLength && AllShareChars(s) && !HasDoubleUnderscore(s)
    && s[0] != '_' && s[|s| - 1] != '_'
  }

  /** Allowed characters stay, every other character becomes `_`. */
  function SafeChar(c: char): (r: char)
    ensures IsShareChar(r)
    ensures IsShareChar(c) ==> r == c
    ensures !IsShareChar(c) ==> r == '_'
  {
    if IsLetterOrDigit(c) then c
    else if c == '_' || c == '-' then c
    else '_'
  }

  /** The character-by-character `Select` of the sanitiser. */
  function Sanitize(s: string): (r: string)
    ensures |r| == |s| && AllShareChars(r)
    ensures forall i :: 0 <= i < |s| ==> r[i] == SafeChar(s[i])
    ensures AllShareChars(s) ==> r == s
  {
    seq(|s|, i requires 0 <= i < |s| => SafeChar(s[i]))
  }

  /** A double underscore after the first character is a double underscore of the tail. */
  lemma DoubleInTail(s: string)
    requires |s| >= 2 && !(s[0] == '_' && s[1] == '_')
    ensures HasDoubleUnderscore(s) <==> HasDoubleUnderscore(s[1..])
  {
    if HasDoubleUnderscore(s) {
      var i :| 0 <= i < |s| - 1 && DoubleAt(s, i);
      assert s[1..][i - 1] == s[i] && s[1..][i] == s[i + 1];
      assert DoubleAt(s[1..], i - 1);
    }
    if HasDoubleUnderscore(s[1..]) {
      var i :| 0 <= i < |s| - 2 && DoubleAt(s[1..], i);
      assert s[1..][i] == s[i + 1] && s[1..][i + 1] == s[i + 2];
      assert DoubleAt(s, i + 1);
    }
  }

  /** `Replace("__", "_")`: one left-to-right pass replacing non-overlapping pairs. */
  function ReplaceDouble(s: string): (r: string)
    ensures |r| <= |s|
    ensures HasDoubleUnderscore(s) ==> |r| < |s|
    ensures !HasDoubleUnderscore(s) ==> r == s
    ensures |s| >= 1 ==> |r| >= 1 && r[0] == s[0]
    ensures forall c :: c in r ==> c in s
    decreases |s|
  {
    if |s| < 2 then s
    else if s[0] == '_' && s[1] == '_' then
      assert DoubleAt(s, 0);
      ['_'] + ReplaceDouble(s[2..])
    else
      DoubleInTail(s);
      [s[0]] + ReplaceDouble(s[1..])
  }

  /** The reference result of the collapse loop: each run of `_` becomes one `_`. */
  function Collapse(s: string): (r: string)
    ensures |r| <= |s|
    ensures !HasDoubleUnderscore(r)
    ensures !HasDoubleUnderscore(s) ==> r == s
    ensures |s| >= 1 ==> |r| >= 1 && r[0] == s[0]
    ensures forall c :: c in r ==> c in s
    decreases |s|
  {
    if |s| < 2 then s
    else if s[0] == '_' && s[1] == '_' then
      assert DoubleAt(s, 0);
      Collapse(s[1..])
    else
      var t := Collapse(s[1..]);
      DoubleInTail(s);
      DoubleInTail([s[0]] + t);
      assert ([s[0]] + t)[1..] == t;
      [s[0]] + t
  }

  /** `Collapse` on one character in front. */
  lemma CollapseCons(c: char, x: string)
    ensures Collapse([c] + x) ==
      if c == '_' && x != [] && x[0] == '_' then Collapse(x) else [c] + Collapse(x)
  {
    assert ([c] + x)[1..] == x;
  }

  /** One `Replace` pass does not change what the runs collapse to. */
  lemma {:induction false} ReplaceDoubleCollapse(s: string)
    ensures Collapse(ReplaceDouble(s)) == Collapse(s)
    decreases |s|
  {
    if |s| >= 2 {
      if s[0] == '_' && s[1] == '_' {
        var t := s[2..];
        ReplaceDoubleCollapse(t);
        assert s[1..] == ['_'] + t;
        CollapseCons('_', t);
        CollapseCons('_', ReplaceDouble(t));
      } else {
        ReplaceDoubleCollapse(s[1..]);
        assert s == [s[0]] + s[1..];
        CollapseCons(s[0], s[1..]);
        CollapseCons(s[0], ReplaceDouble(s[1..]));
      }
    }
  }

  /** `TrimStart('_')`: the suffix of `s` left once its leading underscores are dropped. */
  function TrimStartUnderscores(s: string): (r: string)
    ensures |r| <= |s|
    ensures r != [] ==> r[0] != '_'
    ensures forall k :: 0 <= k < |s| - |r| ==> s[k] == '_'
  {
    if s != [] && s[0] == '_' then TrimStartUnderscores(s[1..]) else s
  }

  /** What `TrimStart('_')` keeps is the end of its input. */
  lemma TrimStartSuffix(s: string)
    ensures TrimStartUnderscores(s) == s[|s| - |TrimStartUnderscores(s)|..]
  {
    if s != [] && s[0] == '_' {
      TrimStartSuffix(s[1..]);
    }
  }

  /** `TrimEnd('_')`: the prefix of `s` left once its trailing underscores are dropped. */
  function TrimEndUnderscores(s: string): (r: string)
    ensures |r| <= |s| && r == s[..|r|]
    ensures r != [] ==> r[|r| - 1] != '_'
    ensures forall k :: |r| <= k < |s| ==> s[k] == '_'
  {
    if s != [] && s[|s| - 1] == '_' then TrimEndUnderscores(s[..|s| - 1]) else s
  }

  /** `Trim('_')`: a slice of `s` that neither starts nor ends with `_`. */
  function TrimUnderscores(s: string): (r: string)
    ensures |r| <= |s|
    ensures r != [] ==> r[0] != '_' && r[|r| - 1] != '_'
  {
    TrimEndUnderscores(TrimStartUnderscores(s))
  }

  /** What the sanitiser makes of a non-blank input before the default and the cap. */
  function Sanitized(s: string): string {
    TrimUnderscores(Collapse(Sanitize(Trim(s))))
  }

  /** The sanitiser's result before the 60-character cap. */
  function Untruncated(input: Option<string>): (r: string)
    ensures r != []
  {
    match input
    case None => DefaultShareName
    case Some(s) =>
      if IsBlank(s) then DefaultShareName
      else
        var t := Sanitized(s);
        if t == [] then DefaultShareName else t
  }

  /** The share name the sanitiser returns for `input` (`None` is a null string). */
  function SafeShareName(input: Option<string>): string {
    var u := Untruncated(input);
    if |u| > MaxShareNameLength then u[..MaxShareNameLength] else u
  }

  /** `MakeSafeShareName`: replace disallowed characters, collapse `__` until none is
      left, trim `_`, fall back to the default name, cap the length. */
  method MakeSafeShareName(input: Option<string>) returns (safe: string)
    ensures safe == SafeShareName(input)
    ensures 1 <= |safe| <= MaxShareNameLength && AllShareChars(safe)
    ensures !HasDoubleUnderscore(safe) && safe[0] != '_'
  {
    if input.None? || IsBlank(input.value) {
      safe := DefaultShareName;
      SafeShareNameShape(input);
      return;
    }
    var mapped := Sanitize(Trim(input.value));
    safe := mapped;
    while HasDoubleUnderscore(safe)
      invariant Collapse(safe) == Collapse(mapped)
      decreases |safe|
    {
      ReplaceDoubleCollapse(safe);
      safe := ReplaceDouble(safe);
    }
    safe := TrimUnderscores(safe);
    if |safe| == 0 {
      safe := DefaultShareName;
    }
    if |safe| > MaxShareNameLength {
      safe := safe[..MaxShareNameLength];
    }
    SafeShareNameShape(input);
  }

  /** Taking a slice keeps the allowed characters and the absence of `__`. */
  lemma SliceKeepsShape(s: string, lo: int, hi: int)
    requires 0 <= lo <= hi <= |s|
    ensures AllShareChars(s) ==> AllShareChars(s[lo..hi])
    ensures !HasDoubleUnderscore(s) ==> !HasDoubleUnderscore(s[lo..hi])
  {
    var t := s[lo..hi];
    if HasDoubleUnderscore(t) {
      var i :| 0 <= i < |t| - 1 && DoubleAt(t, i);
      assert t[i] == s[lo + i] && t[i + 1] == s[lo + i + 1];
      assert DoubleAt(s, lo + i);
    }
    if AllShareChars(s) {
      forall i | 0 <= i < |t| ensures IsShareChar(t[i]) {
        assert t[i] == s[lo + i];
      }
    }
  }

  /** Every stage keeps the characters allowed and, from the collapse on, free of `__`;
      the last two stages take slices. */
  lemma SanitizedShape(s: string)
    ensures AllShareChars(Sanitized(s)) && !HasDoubleUnderscore(Sanitized(s))
    ensures |Sanitized(s)| <= |s|
  {
    var m := Sanitize(Trim(s));
    var c := Collapse(m);
    forall i | 0 <= i < |c| ensures IsShareChar(c[i]) {
      assert c[i] in c;
      var k :| 0 <= k < |m| && m[k] == c[i];
    }
    var a := TrimStartUnderscores(c);
    TrimStartSuffix(c);
    SliceKeepsShape(c, |c| - |a|, |c|);
    assert a == c[|c| - |a|..|c|];
    var e := TrimEndUnderscores(a);
    SliceKeepsShape(a, 0, |e|);
    assert e == a[0..|e|];
    assert Sanitized(s) == e;
  }

  /** The sanitiser always returns 1 to 60 allowed characters, never `__`, never a leading
      `_`, and a trailing `_` only when the 60-character cap cut the name. */
  lemma SafeShareNameShape(input: Option<string>)
    ensures 1 <= |SafeShareName(input)| <= MaxShareNameLength
    ensures AllShareChars(SafeShareName(input)) && !HasDoubleUnderscore(SafeShareName(input))
    ensures SafeShareName(input)[0] != '_'
    ensures SafeShareName(input)[|SafeShareName(input)| - 1] == '_' ==>
      |Untruncated(input)| > MaxShareNameLength
  {
    var u := Untruncated(input);
    var r := SafeShareName(input);
    UntruncatedShape(input);
    assert r == u[..|r|];
    SliceKeepsShape(u, 0, |r|);
  }

  /** Before the cap the result is the default name or a non-empty sanitised name: allowed
      characters, no `__`, no `_` at either end. */
  lemma UntruncatedShape(input: Option<string>)
    ensures AllShareChars(Untruncated(input)) && !HasDoubleUnderscore(Untruncated(input))
    ensures Untruncated(input)[0] != '_'
    ensures Untruncated(input)[|Untruncated(input)| - 1] != '_'
  {
    if input.Some? && !IsBlank(input.value) && Sanitized(input.value) != [] {
      SanitizedShape(input.value);
    } else {
      DefaultNameValid();
    }
  }

  /** The default name is itself a valid share name. */
  lemma DefaultNameValid()
    ensures IsValidShareName(DefaultShareName)
  {
    var d := DefaultShareName;
    assert forall i :: 0 <= i < |d| ==> 'A' <= d[i] <= 'z' && d[i] != '_';
  }

  /** A null or blank input, or one none of whose characters is a letter, a digit or `-`
      (so each maps to `_`, an `_` included), gives the default. */
  lemma SafeShareNameDefault(input: Option<string>)
    ensures input.None? || IsBlank(input.value) ==> SafeShareName(input) == DefaultShareName
    ensures input.Some? && (forall i :: 0 <= i < |input.value| ==> SafeChar(input.value[i]) == '_') ==>
      SafeShareName(input) == DefaultShareName
  {
    if input.Some? && forall i :: 0 <= i < |input.value| ==> SafeChar(input.value[i]) == '_' {
      AllReplacedSanitizesAway(input.value);
    }
  }

  /** When every character maps to `_`, the runs collapse and the trim leaves nothing. */
  lemma AllReplacedSanitizesAway(s: string)
    requires forall i :: 0 <= i < |s| ==> SafeChar(s[i]) == '_'
    ensures Sanitized(s) == []
  {
    var t := Trim(s);
    var m := Sanitize(t);
    forall i | 0 <= i < |m| ensures m[i] == '_' {
      assert t[i] in t;
      TrimKeepsChars(s, t[i]);
    }
    var c := Collapse(m);
    forall i | 0 <= i < |c| ensures c[i] == '_' {
      assert c[i] in c;
    }
    UnderscoresTrimAway(c);
  }

  /** Underscores and blanks alone, as in `_ _`, sanitise to the default name. */
  lemma UnderscoresGiveDefault()
    ensures SafeShareName(Some("_ _")) == DefaultShareName
  {
    var s := "_ _";
    assert SafeChar(s[0]) == '_' && SafeChar(s[1]) == '_' && SafeChar(s[2]) == '_';
    SafeShareNameDefault(Some(s));
  }

  /** A run of underscores trims to nothing. */
  lemma UnderscoresTrimAway(c: string)
    requires forall i :: 0 <= i < |c| ==> c[i] == '_'
    ensures TrimStartUnderscores(c) == [] && TrimUnderscores(c) == []
    decreases |c|
  {
    if c != [] {
      UnderscoresTrimAway(c[1..]);
    }
  }

  /** Exactly the valid share names are left unchanged by the sanitiser. */
  lemma SafeShareNameFixedPoint(s: string)
    ensures SafeShareName(Some(s)) == s <==> IsValidShareName(s)
  {
    if IsValidShareName(s) {
      ValidNameUnchanged(s);
    }
    if SafeShareName(Some(s)) == s {
      UnchangedNameValid(s);
    }
  }

  /** A name the sanitiser leaves alone has the shape of its results and was not cut. */
  lemma UnchangedNameValid(s: string)
    requires SafeShareName(Some(s)) == s
    ensures IsValidShareName(s)
  {
    SafeShareNameShape(Some(s));
    assert !IsWhite(s[0]);
    SanitizedShape(s);
    assert |Untruncated(Some(s))| <= MaxShareNameLength;
  }

  /** Each stage leaves a valid share name alone. */
  lemma ValidNameUnchanged(s: string)
    requires IsValidShareName(s)
    ensures SafeShareName(Some(s)) == s
  {
    assert !IsWhite(s[0]) && !IsWhite(s[|s| - 1]);
    TrimTrimmed(s);
    assert Sanitize(Trim(s)) == s;
    assert TrimStartUnderscores(s) == s;
    assert TrimEndUnderscores(s) == s;
    assert Sanitized(s) == s;
  }

  /** Sanitising a sanitised name again changes it only when the cap left a trailing `_`,
      which the second pass trims. */
  lemma SafeShareNameTwice(input: Option<string>)
    ensures var r := SafeShareName(input);
      SafeShareName(Some(r)) == if r[|r| - 1] == '_' then r[..|r| - 1] else r
  {
    var r := SafeShareName(input);
    SafeShareNameShape(input);
    if r[|r| - 1] != '_' {
      SafeShareNameFixedPoint(r);
    } else {
      CutNameResanitized(r);
    }
  }

  /** A name cut by the cap just after a `_` loses only that `_` when sanitised again. */
  lemma CutNameResanitized(r: string)
    requires |r| == MaxShareNameLength && AllShareChars(r) && !HasDoubleUnderscore(r)
    requires r[0] != '_' && r[|r| - 1] == '_'
    ensures SafeShareName(Some(r)) == r[..|r| - 1]
  {
    assert !IsWhite(r[0]) && !IsWhite(r[|r| - 1]);
    TrimTrimmed(r);
    CutNameSanitized(r);
  }

  /** The stages before the cap, on such a name: only the final trim changes it. */
  lemma CutNameSanitized(r: string)
    requires |r| >= 2 && Trim(r) == r && AllShareChars(r) && !HasDoubleUnderscore(r)
    requires r[0] != '_' && r[|r| - 1] == '_'
    ensures Sanitized(r) == r[..|r| - 1]
  {
    var p := r[..|r| - 1];
    assert !DoubleAt(r, |r| - 2);
    assert Sanitize(r) == r;
    assert Collapse(r) == r;
    assert TrimStartUnderscores(r) == r;
    assert r[|r| - 2] != '_';
    assert TrimEndUnderscores(p) == p;
  }

  // ---------------------------------------------------------------------------
  // PowerShell single-quoted literals
  // ---------------------------------------------------------------------------

  /** `Replace("'", "''")`: every ASCII apostrophe (U+0027) doubled, every other character
      kept, the typographic quotes U+2018 to U+201B among them. */
  function Escape(s: string): (r: string)
    ensures '\'' !in s ==> r == s
    ensures QuotesPaired(r)
  {
    if s == [] then []
    else
      var t := Escape(s[1..]);
      if s[0] == '\'' then
        assert (['\'', '\''] + t)[2..] == t;
        ['\'', '\''] + t
      else
        assert ([s[0]] + t)[1..] == t;
        [s[0]] + t
  }

  /** `EscapePs`: a null string becomes the empty literal body. */
  function EscapePs(s: Option<string>): (r: string)
    ensures s.None? ==> r == []
    ensures QuotesPaired(r)
  {
    match s
    case None => []
    case Some(t) => Escape(t)
  }

  /** Every ASCII apostrophe sits in a pair of two. */
  predicate QuotesPaired(t: string)
    decreases |t|
  {
    t == []
    || (t[0] != '\'' && QuotesPaired(t[1..]))
    || (|t| >= 2 && t[0] == '\'' && t[1] == '\'' && QuotesPaired(t[2..]))
  }

  /** `Replace("''", "'")`: each pair of ASCII apostrophes back to one. */
  function Unescape(t: string): string
    decreases |t|
  {
    if t == [] then []
    else if |t| >= 2 && t[0] == '\'' && t[1] == '\'' then ['\''] + Unescape(t[2..])
    else [t[0]] + Unescape(t[1..])
  }

  /** Reading the escaped text back gives the original string. */
  lemma {:induction false} EscapeRoundTrip(s: string)
    ensures Unescape(Escape(s)) == s
  {
    if s != [] {
      EscapeRoundTrip(s[1..]);
      var t := Escape(s[1..]);
      if s[0] == '\'' {
        assert (['\'', '\''] + t)[2..] == t;
      } else {
        assert ([s[0]] + t)[1..] == t;
      }
      assert s == [s[0]] + s[1..];
    }
  }

  /** Different strings never escape to the same text. */
  lemma EscapeInjective(s: string, t: string)
    requires Escape(s) == Escape(t)
    ensures s == t
  {
    EscapeRoundTrip(s);
    EscapeRoundTrip(t);
  }

  /** The characters PowerShell takes for a single quote: the ASCII apostrophe and the
      typographic quotes U+2018, U+2019, U+201A and U+201B. */
  predicate IsPsQuote(c: char)
  {
    c == '\'' || c == '\U{2018}' || c == '\U{2019}' || c == '\U{201A}' || c == '\U{201B}'
  }

  /** Every PowerShell single quote sits in a pair, so the text cannot close a `'...'`
      literal early. */
  predicate PsQuotesPaired(t: string)
    decreases |t|
  {
    t == []
    || (!IsPsQuote(t[0]) && PsQuotesPaired(t[1..]))
    || (|t| >= 2 && IsPsQuote(t[0]) && IsPsQuote(t[1]) && PsQuotesPaired(t[2..]))
  }

  /** `EscapePs` leaves a typographic quote alone: `a’b` comes back unchanged and its
      `’` closes the literal it is pasted into. */
  lemma EscapeMissesTypographicQuote()
    ensures Escape("a\U{2019}b") == "a\U{2019}b"
    ensures !PsQuotesPaired(Escape("a\U{2019}b"))
  {
    var s := "a\U{2019}b";
    assert '\'' !in s by {
      assert s[0] != '\'' && s[1] != '\'' && s[2] != '\'';
    }
    assert s[1..] == "\U{2019}b";
    assert !PsQuotesPaired(s[1..]) by {
      var u := s[1..];
      assert IsPsQuote(u[0]) && !IsPsQuote(u[1]);
    }
  }

  /** Every PowerShell single quote doubled, every other character kept: the escape that
      keeps a literal closed whatever quote the text holds. */
  function EscapeQuotes(s: string): (r: string)
    ensures (forall i | 0 <= i < |s| :: !IsPsQuote(s[i])) ==> r == s
    ensures PsQuotesPaired(r)
  {
    if s == [] then []
    else
      var t := EscapeQuotes(s[1..]);
      if IsPsQuote(s[0]) then
        assert ([s[0], s[0]] + t)[2..] == t;
        [s[0], s[0]] + t
      else
        assert forall i | 0 <= i < |s[1..]| :: s[1..][i] == s[i + 1];
        assert ([s[0]] + t)[1..] == t;
        [s[0]] + t
  }

  /** What PowerShell reads back from the body of a `'...'` literal: a pair of single
      quotes stands for its second character. */
  function UnescapeQuotes(t: string): string
    decreases |t|
  {
    if t == [] then []
    else if |t| >= 2 && IsPsQuote(t[0]) && IsPsQuote(t[1]) then [t[1]] + UnescapeQuotes(t[2..])
    else [t[0]] + UnescapeQuotes(t[1..])
  }

  /** PowerShell reads the corrected escape back as the original string. */
  lemma {:induction false} EscapeQuotesRoundTrip(s: string)
    ensures UnescapeQuotes(EscapeQuotes(s)) == s
  {
    if s != [] {
      EscapeQuotesRoundTrip(s[1..]);
      var t := EscapeQuotes(s[1..]);
      if IsPsQuote(s[0]) {
        assert ([s[0], s[0]] + t)[2..] == t;
      } else {
        assert ([s[0]] + t)[1..] == t;
      }
      assert s == [s[0]] + s[1..];
    }
  }

  /** On text whose only quotes are ASCII apostrophes the corrected escape is `EscapePs`'s. */
  lemma {:induction false} EscapeQuotesAgrees(s: string)
    requires forall i | 0 <= i < |s| :: IsPsQuote(s[i]) ==> s[i] == '\''
    ensures EscapeQuotes(s) == Escape(s)
  {
    if s != [] {
      assert forall i | 0 <= i < |s[1..]| :: s[1..][i] == s[i + 1];
      EscapeQuotesAgrees(s[1..]);
    }
  }

  // ---------------------------------------------------------------------------
  // Organisational units
  // ---------------------------------------------------------------------------

  /** One organisational unit offered for the GPO link. */
  datatype OuItem = OuItem(name: string, distinguishedName: string)

  /** A piece followed by a line break loses the `\r` of a `\r\n` break. */
  function DropReturn(p: string): (r: string)
    ensures p != [] && p[|p| - 1] == '\r' ==> |r| == |p| - 1
    ensures p == [] || p[|p| - 1] != '\r' ==> r == p
  {
    if p != [] && p[|p| - 1] == '\r' then p[..|p| - 1] else p
  }

  /** Putting the dropped `\r` back gives the piece as it stood before the break. */
  lemma DropReturnRestores(p: string)
    requires p != [] && p[|p| - 1] == '\r'
    ensures DropReturn(p) + ['\r'] == p
  {
    assert p == p[..|p| - 1] + [p[|p| - 1]];
  }

  /** The pieces between line breaks, a break being `\r\n` or else `\n`: the text before
      the first `\n`, less a `\r` just before it, then the pieces of the rest. */
  function Pieces(s: string): (r: seq<string>)
    ensures |r| >= 1
    decreases |s|
  {
    var k := IndexOf(s, '\n');
    if k < 0 then [s] else [DropReturn(s[..k])] + Pieces(s[k + 1..])
  }

  /** Output without a line break is a single piece. */
  lemma PiecesNoBreak(s: string)
    requires '\n' !in s
    ensures Pieces(s) == [s]
  {
  }

  /** The text before the first `\n` is the first piece, less a `\r` before the break; the
      text after it gives the remaining pieces. */
  lemma PiecesBreak(a: string, b: string)
    requires '\n' !in a
    ensures Pieces(a + ['\n'] + b) == [DropReturn(a)] + Pieces(b)
  {
    var s := a + ['\n'] + b;
    assert s[..|a|] == a && s[|a| + 1..] == b;
    IndexOfAt(s, '\n', |a|);
  }

  function NonEmpty(p: string): (r: Option<string>)
    ensures r.Some? ==> r.value == p && p != []
  {
    if p == [] then None else Some(p)
  }

  /** `Split(new[] { "\r\n", "\n" }, StringSplitOptions.RemoveEmptyEntries)`. */
  function OutputLines(s: string): (r: seq<string>)
    ensures forall l :: l in r <==> l != [] && l in Pieces(s)
  {
    var ps := Pieces(s);
    assert forall l :: l in FilterMap(NonEmpty, ps) <==> l != [] && l in ps by {
      forall l ensures l in FilterMap(NonEmpty, ps) <==> l != [] && l in ps {
        FilterMapMembers(NonEmpty, ps, l);
        if l != [] && l in ps {
          var k :| 0 <= k < |ps| && ps[k] == l;
          assert NonEmpty(ps[k]) == Some(l);
        }
      }
    }
    FilterMap(NonEmpty, ps)
  }

  /** The item one output line yields: exactly two `|`-separated fields, both non-blank,
      each trimmed. */
  function ParseOuLine(line: string): (r: Option<OuItem>)
    ensures r.Some? ==>
      IsTrimmed(r.value.name) && !IsBlank(r.value.name) && '|' !in r.value.name
      && IsTrimmed(r.value.distinguishedName) && !IsBlank(r.value.distinguishedName)
      && '|' !in r.value.distinguishedName
  {
    var parts := Split(line, '|');
    if |parts| != 2 then None
    else
      var name := Trim(parts[0]);
      var dn := Trim(parts[1]);
      TrimDropsAbsent(parts[0], '|');
      TrimDropsAbsent(parts[1], '|');
      if IsBlank(name) || IsBlank(dn) then None
      else Some(OuItem(name, dn))
  }

  /** The items of a sequence of lines, in line order. */
  function OuItems(lines: seq<string>): seq<OuItem> {
    FilterMap(ParseOuLine, lines)
  }

  /** The single `|` of `line` is at `i`. */
  predicate OnlyBarAt(line: string, i: int) {
    0 <= i < |line| && line[i] == '|' && '|' !in line[..i] && '|' !in line[i + 1..]
  }

  /** A line yields an item exactly when it holds one `|` with non-blank text on both
      sides, and the item is that text, trimmed. */
  lemma ParseOuLineExact(line: string, item: OuItem)
    ensures ParseOuLine(line) == Some(item) <==>
      exists i :: OnlyBarAt(line, i) && !IsBlank(line[..i]) && !IsBlank(line[i + 1..])
        && item == OuItem(Trim(line[..i]), Trim(line[i + 1..]))
  {
    if ParseOuLine(line) == Some(item) {
      var parts := Split(line, '|');
      var i := |parts[0]|;
      assert Join(parts, '|') == parts[0] + ['|'] + parts[1];
      assert line[..i] == parts[0] && line[i + 1..] == parts[1];
      assert OnlyBarAt(line, i) && !IsBlank(line[..i]) && !IsBlank(line[i + 1..])
        && item == OuItem(Trim(line[..i]), Trim(line[i + 1..]));
    }
    if exists i :: OnlyBarAt(line, i) && !IsBlank(line[..i]) && !IsBlank(line[i + 1..])
        && item == OuItem(Trim(line[..i]), Trim(line[i + 1..])) {
      var i :| OnlyBarAt(line, i) && !IsBlank(line[..i]) && !IsBlank(line[i + 1..])
        && item == OuItem(Trim(line[..i]), Trim(line[i + 1..]));
      ParseOnlyBar(line, i);
    }
  }

  /** A line with a single `|` and text on both sides yields that text, trimmed. */
  lemma ParseOnlyBar(line: string, i: int)
    requires OnlyBarAt(line, i) && !IsBlank(line[..i]) && !IsBlank(line[i + 1..])
    ensures ParseOuLine(line) == Some(OuItem(Trim(line[..i]), Trim(line[i + 1..])))
  {
    OnlyBarSplits(line, i);
    TrimBlank(line[..i]);
    TrimBlank(line[i + 1..]);
  }

  /** A line with a single `|` splits into the text before it and the text after it. */
  lemma OnlyBarSplits(line: string, i: int)
    requires OnlyBarAt(line, i)
    ensures Split(line, '|') == [line[..i], line[i + 1..]]
  {
    assert IndexOf(line, '|') == i;
    assert Split(line[i + 1..], '|') == [line[i + 1..]];
  }

  /** `LoadOUsIfPossible` once the query has run: nothing on a failed query or blank
      output, otherwise the items of the output's non-empty lines, in order. */
  method LoadOuItems(exitCode: int, stdout: string) returns (items: seq<OuItem>)
    ensures exitCode != 0 || IsBlank(stdout) ==> items == []
    ensures exitCode == 0 && !IsBlank(stdout) ==> items == OuItems(OutputLines(stdout))
  {
    items := [];
    if exitCode != 0 || IsBlank(stdout) {
      return;
    }
    var lines := OutputLines(stdout);
    for k := 0 to |lines|
      invariant items == OuItems(lines[..k])
    {
      FilterMapNext(ParseOuLine, lines, k);
      var parts := Split(lines[k], '|');
      if |parts| != 2 {
        assert ParseOuLine(lines[k]) == None;
        continue;
      }
      var name := Trim(parts[0]);
      var dn := Trim(parts[1]);
      if IsBlank(name) || IsBlank(dn) {
        assert ParseOuLine(lines[k]) == None;
        continue;
      }
      assert ParseOuLine(lines[k]) == Some(OuItem(name, dn));
      items := items + [OuItem(name, dn)];
    }
    assert lines[..|lines|] == lines;
  }

  /** An item is offered exactly when some line yields it. */
  lemma OuItemsOrigin(lines: seq<string>, item: OuItem)
    ensures item in OuItems(lines) <==> exists k :: 0 <= k < |lines| && ParseOuLine(lines[k]) == Some(item)
  {
    FilterMapMembers(ParseOuLine, lines, item);
  }

  /** Items keep the order of their lines: those of earlier lines come first. */
  lemma OuItemsAppend(a: seq<string>, b: seq<string>)
    ensures OuItems(a + b) == OuItems(a) + OuItems(b)
  {
    FilterMapAppend(ParseOuLine, a, b);
  }

  /** A line is a run of characters of the output without a line break. */
  lemma {:induction false} OutputLinesChars(s: string, k: int, c: char)
    requires 0 <= k < |OutputLines(s)| && c in OutputLines(s)[k]
    ensures c in s && c != '\n'
  {
    var ps := Pieces(s);
    var l := OutputLines(s)[k];
    FilterMapMembers(NonEmpty, ps, l);
    var j :| 0 <= j < |ps| && NonEmpty(ps[j]) == Some(l);
    assert l == ps[j];
    PieceChars(s, l, c);
  }

  /** A kept output line is a run of consecutive characters of the output. */
  lemma OutputLineOccurs(s: string, k: int)
    requires 0 <= k < |OutputLines(s)|
    ensures exists i :: OccursAt(OutputLines(s)[k], s, i)
  {
    var ps := Pieces(s);
    var l := OutputLines(s)[k];
    FilterMapMembers(NonEmpty, ps, l);
    var j :| 0 <= j < |ps| && NonEmpty(ps[j]) == Some(l);
    assert l == ps[j];
    var i := PieceOccurs(s, l);
  }

  /** A piece is a run of consecutive characters of the output, starting at `i`. */
  lemma {:induction false} PieceOccurs(s: string, p: string) returns (i: int)
    requires p in Pieces(s)
    ensures OccursAt(p, s, i)
    decreases |s|, 1
  {
    var k := IndexOf(s, '\n');
    if k < 0 {
      SolePiece(s, p);
      i := 0;
    } else {
      PiecesMember(s, k, p);
      if p in Pieces(s[k + 1..]) {
        i := TailPieceOccurs(s, k, p);
      } else {
        FirstPieceOccurs(p, s, k);
        i := 0;
      }
    }
  }

  /** A piece of the text after the first break is found in the output too. */
  lemma {:induction false} TailPieceOccurs(s: string, k: int, p: string) returns (i: int)
    requires 0 <= k < |s| && p in Pieces(s[k + 1..])
    ensures OccursAt(p, s, i)
    decreases |s|, 0
  {
    var i' := PieceOccurs(s[k + 1..], p);
    i := OccursInTail(p, s, k, i');
  }

  /** Without a line break the output is its own single piece. */
  lemma SolePiece(s: string, p: string)
    requires IndexOf(s, '\n') < 0 && p in Pieces(s)
    ensures p == s && OccursAt(p, s, 0)
  {
    assert Pieces(s) == [s];
  }

  /** A piece is the first one or a piece of the text after the first break. */
  lemma PiecesMember(s: string, k: int, p: string)
    requires k == IndexOf(s, '\n') && k >= 0 && p in Pieces(s)
    ensures p == DropReturn(s[..k]) || p in Pieces(s[k + 1..])
  {
    PiecesUnfold(s, k);
  }

  /** One step of the split: the first piece, then the pieces of the rest. */
  lemma PiecesUnfold(s: string, k: int)
    requires k == IndexOf(s, '\n') && k >= 0
    ensures Pieces(s) == [DropReturn(s[..k])] + Pieces(s[k + 1..])
  {
  }

  /** The first piece, taken from a prefix of the output, starts the output. */
  lemma FirstPieceOccurs(p: string, s: string, k: int)
    requires 0 <= k <= |s| && p == DropReturn(s[..k])
    ensures OccursAt(p, s, 0)
  {
    assert p == s[..k][..|p|] == s[..|p|];
  }

  /** A run of the text after position `k` is a run of the whole text. */
  lemma OccursInTail(p: string, s: string, k: int, i: int) returns (j: int)
    requires 0 <= k < |s| && OccursAt(p, s[k + 1..], i)
    ensures j == k + 1 + i && OccursAt(p, s, j)
  {
    j := k + 1 + i;
    assert s[k + 1..][i..i + |p|] == s[j..j + |p|];
  }

  /** A piece holds characters of the output and no line break. */
  lemma {:induction false} PieceChars(s: string, p: string, c: char)
    requires p in Pieces(s) && c in p
    ensures c in s && c != '\n'
    decreases |s|
  {
    var k := IndexOf(s, '\n');
    if k < 0 {
      SolePiece(s, p);
    } else {
      PiecesMember(s, k, p);
      if p in Pieces(s[k + 1..]) {
        PieceChars(s[k + 1..], p, c);
        assert c in s[k + 1..];
      } else {
        DropReturnChars(s[..k], c);
        assert c in s[..k];
      }
    }
  }

  /** Dropping a `\r` keeps only characters the piece already had. */
  lemma DropReturnChars(p: string, c: char)
    requires c in DropReturn(p)
    ensures c in p
  {
    var r := DropReturn(p);
    assert r == p[..|r|];
  }

  /** Output without a `|`, blank output among it, yields no items. */
  lemma NoBarNoItems(stdout: string)
    requires '|' !in stdout
    ensures OuItems(OutputLines(stdout)) == []
  {
    var lines := OutputLines(stdout);
    forall k | 0 <= k < |lines| ensures ParseOuLine(lines[k]) == None {
      if '|' in lines[k] {
        OutputLinesChars(stdout, k, '|');
      }
    }
    if OuItems(lines) != [] {
      OuItemsOrigin(lines, OuItems(lines)[0]);
    }
  }
}
