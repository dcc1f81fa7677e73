/**
 * The best-effort fallback scraper of printer model names: every line of an INF
 * file that looks like `"Model Name" = ...` contributes its quoted text, trimmed;
 * the names are gathered into a case-insensitive set and returned sorted.
 *
 * The pattern `^\s*"(?<name>[^"]+)"\s*=` is written out as a matcher over the
 * line's characters (`MatchName`), next to a declarative statement of what a
 * match is (`MatchAt`), and the two are proved to agree.
 */
module InfModelHelper {
  import opened Wrappers
  import opened Text
  import opened Lists
  import opened NameSet

  /** The pattern matches `line` with its opening quote at `a`, its closing quote at `b`
      and its `=` at `e`: only white space before `a`, a non-empty run without `"`
      between the quotes, only white space between `b` and `e`. */
  predicate MatchAt(line: string, a: int, b: int, e: int) {
    0 <= a && a + 1 < b < e < |line|
    && IsBlank(line[..a]) && line[a] == '"'
    && '"' !in line[a + 1..b] && line[b] == '"'
    && IsBlank(line[b + 1..e]) && line[e] == '='
  }

  /** The `name` group of a match of the pattern against `line`, if the line matches. */
  function MatchName(line: string): (r: Option<string>)
    ensures r.Some? ==> |r.value| >= 1 && '"' !in r.value
  {
    var a := SkipWhite(line, 0);
    if a == |line| || line[a] != '"' then None else NameFrom(line, a)
  }

  /** The rest of the match once the opening quote is found at `a`. */
  function NameFrom(line: string, a: nat): (r: Option<string>)
    requires a < |line|
    ensures r.Some? ==> |r.value| >= 1 && '"' !in r.value
  {
    var j := IndexOf(line[a + 1..], '"');
    if j < 1 then None
    else
      assert line[a + 1..a + 1 + j] == line[a + 1..][..j];
      EqualsFrom(line, a, a + 1 + j)
  }

  /** The rest of the match once the closing quote is found at `b`. */
  function EqualsFrom(line: string, a: nat, b: nat): (r: Option<string>)
    requires a + 1 < b < |line|
    ensures r.Some? ==> r.value == line[a + 1..b]
  {
    var e := SkipWhite(line, b + 1);
    if e == |line| || line[e] != '=' then None else Some(line[a + 1..b])
  }

  /** The matcher finds a name exactly when the pattern matches, and the name it finds
      is the text between the quotes of that match; in particular the match is unique. */
  lemma MatchNameExact(line: string, n: string)
    ensures MatchName(line) == Some(n) <==>
      exists a, b, e :: MatchAt(line, a, b, e) && n == line[a + 1..b]
  {
    if MatchName(line) == Some(n) {
      var a, b, e := MatchFound(line);
    }
    if exists a, b, e :: MatchAt(line, a, b, e) && n == line[a + 1..b] {
      var a, b, e :| MatchAt(line, a, b, e) && n == line[a + 1..b];
      MatchIsFirst(line, a, b, e);
    }
  }

  /** Where the matcher found its name: the positions of the match. */
  lemma MatchFound(line: string) returns (a: int, b: int, e: int)
    requires MatchName(line).Some?
    ensures MatchAt(line, a, b, e) && MatchName(line).value == line[a + 1..b]
  {
    a := SkipWhite(line, 0);
    assert IsBlank(line[..a]);
    b, e := NameFromFound(line, a);
  }

  /** Where `NameFrom` found its closing quote and its `=`. */
  lemma NameFromFound(line: string, a: nat) returns (b: int, e: int)
    requires a < |line| && NameFrom(line, a).Some?
    ensures a + 1 < b < e < |line| && '"' !in line[a + 1..b] && line[b] == '"'
    ensures IsBlank(line[b + 1..e]) && line[e] == '='
    ensures NameFrom(line, a).value == line[a + 1..b]
  {
    var j := IndexOf(line[a + 1..], '"');
    b := a + 1 + j;
    assert line[a + 1..b] == line[a + 1..][..j];
    e := SkipWhite(line, b + 1);
    assert IsBlank(line[b + 1..e]);
  }

  /** Any match of the pattern is the one the matcher finds: the leading white space is
      all of it, the closing quote is the first `"` after the opening one. */
  lemma MatchIsFirst(line: string, a: int, b: int, e: int)
    requires MatchAt(line, a, b, e)
    ensures MatchName(line) == Some(line[a + 1..b])
  {
    SkipWhiteStopsAt(line, 0, a);
    SkipWhiteStopsAt(line, b + 1, e);
    assert EqualsFrom(line, a, b) == Some(line[a + 1..b]);
    FirstQuoteAt(line, a, b);
  }

  /** Skipping white space from `i` stops at `j` when only white space lies between. */
  lemma SkipWhiteStopsAt(s: string, i: nat, j: nat)
    requires i <= j < |s| && IsBlank(s[i..j]) && !IsWhite(s[j])
    ensures SkipWhite(s, i) == j
    decreases j - i
  {
    if i < j {
      assert s[i] == s[i..j][0];
      assert s[i + 1..j] == s[i..j][1..];
      SkipWhiteStopsAt(s, i + 1, j);
    }
  }

  /** With no `"` strictly between `a` and `b`, the matcher's closing quote is `b`. */
  lemma FirstQuoteAt(line: string, a: nat, b: nat)
    requires a + 1 < b < |line| && '"' !in line[a + 1..b] && line[b] == '"'
    ensures NameFrom(line, a) == EqualsFrom(line, a, b)
  {
    var rest := line[a + 1..];
    assert rest[b - a - 1] == '"';
    var j := IndexOf(rest, '"');
  }

  /** What one line adds to the set: the matched name, trimmed, unless it is blank. */
  function Scraped(line: string): (r: Option<string>)
    ensures r.Some? ==> IsTrimmed(r.value) && !IsBlank(r.value) && '"' !in r.value
  {
    match MatchName(line)
    case None => None
    case Some(n) =>
      var name := Trim(n);
      TrimDropsAbsent(n, '"');
      if IsBlank(name) then None else Some(name)
  }

  /** The names the lines contribute, in line order, before de-duplication. */
  function ScrapedNames(lines: seq<string>): seq<string> {
    FilterMap(Scraped, lines)
  }

  /** The result the scraper promises: the contributed names, one per case-insensitive
      class, the first spelling seen kept, sorted. */
  function ModelNames(lines: seq<string>): seq<string> {
    Sort(Distinct(ScrapedNames(lines)))
  }

  /** `GetModelNames` on lines already read from the file: match each line, add the
      trimmed non-blank names to a case-insensitive set, sort. */
  method GetModelNames(lines: seq<string>) returns (names: seq<string>)
    ensures names == ModelNames(lines)
    ensures Sorted(names) && NoCaseDuplicates(names)
    ensures forall n :: n in names ==> IsTrimmed(n) && !IsBlank(n) && '"' !in n
  {
    var found: seq<string> := [];
    for i := 0 to |lines|
      invariant found == Distinct(ScrapedNames(lines[..i]))
    {
      FilterMapNext(Scraped, lines, i);
      var m := MatchName(lines[i]);
      if m.Some? {
        var name := Trim(m.value);
        if !IsBlank(name) {
          assert Scraped(lines[i]) == Some(name);
          assert ScrapedNames(lines[..i + 1]) == ScrapedNames(lines[..i]) + [name];
          DistinctNext(ScrapedNames(lines[..i]), name);
          found := Add(found, name);
        } else {
          assert Scraped(lines[i]) == None;
          assert ScrapedNames(lines[..i + 1]) == ScrapedNames(lines[..i]);
        }
      } else {
        assert Scraped(lines[i]) == None;
        assert ScrapedNames(lines[..i + 1]) == ScrapedNames(lines[..i]);
      }
    }
    assert lines[..|lines|] == lines;
    names := Sort(found);
    SortedDistinct(ScrapedNames(lines));
    forall n | n in names ensures IsTrimmed(n) && !IsBlank(n) && '"' !in n {
      ScrapedNamesOrigin(lines, n);
    }
  }

  /** A name is contributed exactly when some line yields it. */
  lemma ScrapedNamesOrigin(lines: seq<string>, n: string)
    ensures n in ScrapedNames(lines) <==> exists k :: 0 <= k < |lines| && Scraped(lines[k]) == Some(n)
  {
    FilterMapMembers(Scraped, lines, n);
  }

  /** Every line that matches with a non-blank name is represented, ignoring case, in the
      result. */
  lemma ModelNamesComplete(lines: seq<string>, k: int)
    requires 0 <= k < |lines| && Scraped(lines[k]).Some?
    ensures ContainsIgnoreCase(ModelNames(lines), Scraped(lines[k]).value)
  {
    var s := ScrapedNames(lines);
    var n := Scraped(lines[k]).value;
    ScrapedNamesOrigin(lines, n);
    var i :| 0 <= i < |s| && s[i] == n;
    assert ContainsIgnoreCase(s, n);
    SortedDistinct(s);
  }

  /** Every entry of the result is the trimmed name of some matching line. */
  lemma ModelNamesSound(lines: seq<string>, y: string)
    requires y in ModelNames(lines)
    ensures exists k :: 0 <= k < |lines| && Scraped(lines[k]) == Some(y)
  {
    SortedDistinct(ScrapedNames(lines));
    ScrapedNamesOrigin(lines, y);
  }

  /** Of several case-variants of a name, the spelling on the earliest line is the one
      returned. */
  lemma ModelNamesKeepFirst(lines: seq<string>, k: int)
    requires 0 <= k < |ScrapedNames(lines)| && FirstOfItsCase(ScrapedNames(lines), k)
    ensures ScrapedNames(lines)[k] in ModelNames(lines)
  {
    var s := ScrapedNames(lines);
    DistinctKeepsFirst(s, k);
    assert s[k] in multiset(Sort(Distinct(s)));
  }

  /** A line the pattern does not match adds nothing to the result, wherever it stands. */
  lemma NonMatchingLineIgnored(a: seq<string>, line: string, b: seq<string>)
    requires MatchName(line).None?
    ensures ModelNames(a + [line] + b) == ModelNames(a + b)
  {
    FilterMapAppend(Scraped, a + [line], b);
    NonMatchingLineAtEnd(a, line);
    FilterMapAppend(Scraped, a, b);
    assert ScrapedNames(a + [line] + b) == ScrapedNames(a + b);
  }

  /** The same for a line appended at the end. */
  lemma NonMatchingLineAtEnd(a: seq<string>, line: string)
    requires MatchName(line).None?
    ensures FilterMap(Scraped, a + [line]) == FilterMap(Scraped, a)
  {
    var xs := a + [line];
    assert xs[..|xs| - 1] == a;
    assert Scraped(xs[|xs| - 1]) == None;
  }
}
