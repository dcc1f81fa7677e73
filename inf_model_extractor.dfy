/**
 * The INF model-name extractor: from the lines of a Windows driver INF file, the
 * sorted, case-insensitively distinct display names of the printer models the
 * file declares.
 *
 * Each stage of the source is a method here, written as the source writes it
 * (search loops, appends, dictionary stores), and proved equal to a
 * specification function on values; the lemmas state what those functions mean.
 */
module InfModelExtractor {
  import opened Wrappers
  import opened Text
  import opened Lists
  import opened NameSet

  // ---------------------------------------------------------------------------
  // Sections
  // ---------------------------------------------------------------------------

  /** A line whose trimmed text starts with `[` and ends with `]` opens a section. */
  predicate IsHeaderLine(line: string) {
    var t := Trim(line);
    StartsWithChar(t, '[') && EndsWithChar(t, ']')
  }

  /** The section name of a header line: the text between its brackets. */
  function HeaderName(line: string): (name: string)
    requires IsHeaderLine(line)
    ensures Trim(line) == ['['] + name + [']']
  {
    var t := Trim(line);
    t[1..|t| - 1]
  }

  /** The line is the header `[name]`, compared ignoring case. */
  predicate IsHeaderOf(line: string, name: string) {
    EqualsIgnoreCase(Trim(line), "[" + name + "]")
  }

  /** The first header `[name]` at or after `from`, or -1. */
  function FindHeader(lines: seq<string>, name: string, from: nat): (r: int)
    requires from <= |lines|
    ensures r == -1 || (from <= r < |lines| && IsHeaderOf(lines[r], name))
    ensures forall k :: from <= k < |lines| && (r == -1 || k < r) ==> !IsHeaderOf(lines[k], name)
    decreases |lines| - from
  {
    if from == |lines| then -1
    else if IsHeaderOf(lines[from], name) then from
    else FindHeader(lines, name, from + 1)
  }

  /** The first header line at or after `from`, or the end of the file. */
  function SectionEnd(lines: seq<string>, from: nat): (e: nat)
    requires from <= |lines|
    ensures from <= e <= |lines|
    ensures e < |lines| ==> IsHeaderLine(lines[e])
    ensures forall k :: from <= k < e ==> !IsHeaderLine(lines[k])
    decreases |lines| - from
  {
    if from == |lines| then from
    else if IsHeaderLine(lines[from]) then from
    else SectionEnd(lines, from + 1)
  }

  /** The body of the first section called `name`: empty when there is none. */
  function SectionLines(lines: seq<string>, name: string): (body: seq<string>)
    ensures forall l :: l in body ==> !IsHeaderLine(l)
    ensures (forall k :: 0 <= k < |lines| ==> !IsHeaderOf(lines[k], name)) ==> body == []
  {
    var h := FindHeader(lines, name, 0);
    if h < 0 then []
    else
      BodyHasNoHeader(lines, h + 1);
      lines[h + 1..SectionEnd(lines, h + 1)]
  }

  /** No line between `from` and the end of its section is a header. */
  lemma BodyHasNoHeader(lines: seq<string>, from: nat)
    requires from <= |lines|
    ensures forall l :: l in lines[from..SectionEnd(lines, from)] ==> !IsHeaderLine(l)
  {
    var body := lines[from..SectionEnd(lines, from)];
    forall l | l in body ensures !IsHeaderLine(l) {
      var k :| 0 <= k < |body| && body[k] == l;
      assert lines[from + k] == l;
    }
  }

  /** `GetSectionLines`: a search loop for the header, then a copying loop up to the next header. */
  method GetSectionLines(lines: seq<string>, sectionName: string) returns (result: seq<string>)
    ensures result == SectionLines(lines, sectionName)
  {
    var start := -1;
    var i := 0;
    while i < |lines|
      invariant 0 <= i <= |lines|
      invariant start == -1
      invariant FindHeader(lines, sectionName, 0) == FindHeader(lines, sectionName, i)
    {
      if IsHeaderOf(lines[i], sectionName) {
        start := i + 1;
        break;
      }
      i := i + 1;
    }
    if start == -1 {
      return [];
    }
    result := CopyUntilHeader(lines, start);
  }

  /** The copying loop of `GetSectionLines`: the lines from `start` up to the next header. */
  method CopyUntilHeader(lines: seq<string>, start: nat) returns (result: seq<string>)
    requires start <= |lines|
    ensures result == lines[start..SectionEnd(lines, start)]
  {
    result := [];
    var i := start;
    while i < |lines|
      invariant start <= i <= |lines|
      invariant SectionEnd(lines, start) == SectionEnd(lines, i)
      invariant result == lines[start..i]
    {
      if IsHeaderLine(lines[i]) {
        break;
      }
      SliceNext(lines, start, i);
      result := result + [lines[i]];
      i := i + 1;
    }
  }

  /** The section is exactly the lines after the FIRST `[name]` header, up to the next header. */
  lemma SectionIsBetweenHeaders(lines: seq<string>, name: string, h: int, e: int)
    requires 0 <= h < e <= |lines|
    requires IsHeaderOf(lines[h], name)
    requires forall k :: 0 <= k < h ==> !IsHeaderOf(lines[k], name)
    requires e == |lines| || IsHeaderLine(lines[e])
    requires forall k :: h < k < e ==> !IsHeaderLine(lines[k])
    ensures SectionLines(lines, name) == lines[h + 1..e]
  {
    var f := FindHeader(lines, name, 0);
    assert f == h;
    var g := SectionEnd(lines, h + 1);
    assert g == e;
  }

  // ---------------------------------------------------------------------------
  // Line-level helpers
  // ---------------------------------------------------------------------------

  /** `StripComments`: everything before the first `;`; the whole line when there is none. */
  function StripComments(line: string): (r: string)
    ensures |r| <= |line| && r == line[..|r|] && ';' !in r
    ensures |r| < |line| ==> line[|r|] == ';'
    ensures ';' !in line ==> r == line
  {
    Before(line, ';')
  }

  /** Stripping twice strips nothing more. */
  lemma StripCommentsIdempotent(line: string)
    ensures StripComments(StripComments(line)) == StripComments(line)
  {
  }

  /** Text that starts and ends with a double quote, at least two characters long. */
  predicate IsQuoted(t: string) {
    StartsWithChar(t, '"') && EndsWithChar(t, '"') && |t| >= 2
  }

  /** `TrimQuotes`: trims, then removes exactly one layer of surrounding quotes if there is one. */
  function TrimQuotes(s: string): (r: string)
    ensures IsQuoted(Trim(s)) ==> Trim(s) == ['"'] + r + ['"']
    ensures !IsQuoted(Trim(s)) ==> r == Trim(s)
  {
    var t := Trim(s);
    if StartsWithChar(t, '"') && EndsWithChar(t, '"') && |t| >= 2 then t[1..|t| - 1] else t
  }

  /** `TrimQuotes` trims first, so trimming beforehand changes nothing. */
  lemma TrimQuotesTrim(s: string)
    ensures TrimQuotes(Trim(s)) == TrimQuotes(s)
  {
    TrimTrimmed(Trim(s));
  }

  /** A character absent from the input is absent from the de-quoted text. */
  lemma TrimQuotesDropsAbsent(s: string, c: char)
    ensures c !in s ==> c !in TrimQuotes(s)
  {
    TrimDropsAbsent(s, c);
    var t := Trim(s);
    if IsQuoted(t) {
      assert forall i :: 0 <= i < |t| - 2 ==> TrimQuotes(s)[i] == t[i + 1];
    }
  }

  /** Quoting any text and trimming the quotes again gives the text back. */
  lemma TrimQuotesUndoesQuote(x: string)
    ensures TrimQuotes(['"'] + x + ['"']) == x
  {
    var q := ['"'] + x + ['"'];
    TrimTrimmed(q);
    assert IsQuoted(q);
  }

  /** One layer only: `""a""` loses its outer quotes and keeps the inner ones. */
  lemma TrimQuotesNotIdempotent()
    ensures TrimQuotes("\"\"a\"\"") == "\"a\""
    ensures TrimQuotes(TrimQuotes("\"\"a\"\"")) == "a"
  {
    TrimQuotesUndoesQuote("\"a\"");
    assert "\"\"a\"\"" == ['"'] + "\"a\"" + ['"'];
    TrimQuotesUndoesQuote("a");
    assert "\"a\"" == ['"'] + "a" + ['"'];
  }

  // ---------------------------------------------------------------------------
  // [Strings]: the string table
  // ---------------------------------------------------------------------------

  /** A dictionary slot: the key as first stored, and the value last stored under it. */
  datatype Entry = Entry(key: string, value: string)

  /**
   * `Dictionary<string, string>(StringComparer.OrdinalIgnoreCase)`: slots indexed by
   * the case-folded key.
   */
  type StringTable = map<string, Entry>

  /** Every slot sits under its own folded key and holds a non-blank key and value. */
  predicate ValidTable(t: StringTable) {
    forall k :: k in t ==> Fold(t[k].key) == k && !IsBlank(t[k].key) && !IsBlank(t[k].value)
  }

  /** `TryGetValue` under the case-insensitive comparer: a hit is the value of an entry whose
      key equals `key` ignoring case, and in a well-formed table it is never blank. */
  function Lookup(t: StringTable, key: string): (r: Option<string>)
    ensures r.Some? <==> Fold(key) in t
    ensures r.Some? && ValidTable(t) ==>
      EqualsIgnoreCase(t[Fold(key)].key, key) && r.value == t[Fold(key)].value && !IsBlank(r.value)
  {
    if Fold(key) in t then Some(t[Fold(key)].value) else None
  }

  /** Keys equal ignoring case look up the same entry. */
  lemma LookupIgnoresCase(t: StringTable, a: string, b: string)
    requires EqualsIgnoreCase(a, b)
    ensures Lookup(t, a) == Lookup(t, b)
  {
  }

  /** `dict[key] = value`: a key equal ignoring case keeps its spelling and takes the new value. */
  function Store(t: StringTable, key: string, value: string): (r: StringTable)
    ensures ValidTable(t) && !IsBlank(key) && !IsBlank(value) ==> ValidTable(r)
    ensures Lookup(r, key) == Some(value)
    ensures forall k :: Fold(k) != Fold(key) ==> Lookup(r, k) == Lookup(t, k)
    ensures r.Keys == t.Keys + {Fold(key)}
  {
    var fk := Fold(key);
    if fk in t then t[fk := Entry(t[fk].key, value)] else t[fk := Entry(key, value)]
  }

  /** The `key = value` pair a `[Strings]` line defines, if it is well formed. */
  function StringEntry(raw: string): (r: Option<Entry>)
    ensures IndexOf(Trim(StripComments(raw)), '=') < 1 ==> r.None?
    ensures r.Some? ==> IsTrimmed(r.value.key) && !IsBlank(r.value.key)
    ensures r.Some? ==> '=' !in r.value.key && ';' !in r.value.key
    ensures r.Some? ==> !IsBlank(r.value.value) && ';' !in r.value.value
  {
    var line := Trim(StripComments(raw));
    if IsBlank(line) then None
    else
      var idx := IndexOf(line, '=');
      if idx < 1 then None
      else
        var key := Trim(line[..idx]);
        var val := TrimQuotes(Trim(line[idx + 1..]));
        TrimDropsAbsent(StripComments(raw), ';');
        TrimDropsAbsent(line[..idx], '=');
        TrimDropsAbsent(line[..idx], ';');
        TrimDropsAbsent(line[idx + 1..], ';');
        TrimQuotesDropsAbsent(Trim(line[idx + 1..]), ';');
        if !IsBlank(key) && !IsBlank(val) then Some(Entry(key, val)) else None
  }

  /**
   * A line `l = v` with no comment: the first `=` is the one after `l`, the trimmed line
   * has nothing before it exactly when `l` is blank, and the two sides trim to `l` and `v`.
   */
  lemma SplitAtEquals(l: string, v: string) returns (line: string, idx: nat)
    requires '=' !in l && ';' !in l && ';' !in v
    ensures line == Trim(StripComments(l + ['='] + v))
    ensures !IsBlank(line) && idx < |line| && IndexOf(line, '=') == idx && (idx == 0 <==> IsBlank(l))
    ensures Trim(line[..idx]) == Trim(l) && Trim(line[idx + 1..]) == Trim(v)
  {
    var lo, hi := TrimmedLine(l, v);
    line := (l + ['='] + v)[lo..hi];
    idx := |l| - lo;
    EqualsAfterLeft(l, v, lo, hi);
    LeftSideTrims(l, v, lo, hi, line, idx);
    RightSideTrims(l, v, lo, hi, line, idx);
    NothingBeforeEquals(l, v, lo);
    assert line[idx] == '=';
  }

  /** A comment-free line `l = v` trims to a slice around its `=`. */
  lemma TrimmedLine(l: string, v: string) returns (lo: nat, hi: nat)
    requires ';' !in l && ';' !in v
    ensures lo <= |l| < hi <= |l| + 1 + |v|
    ensures Trim(StripComments(l + ['='] + v)) == (l + ['='] + v)[lo..hi]
    ensures IsBlank((l + ['='] + v)[..lo]) && IsBlank((l + ['='] + v)[hi..]) && !IsWhite((l + ['='] + v)[lo])
  {
    var raw := l + ['='] + v;
    assert ';' !in raw && raw[|l|] == '=';
    lo, hi := TrimAround(raw, |l|);
  }

  /** In a slice of `l = v` around the `=`, the first `=` is the one after `l`. */
  lemma EqualsAfterLeft(l: string, v: string, lo: nat, hi: nat)
    requires '=' !in l && lo <= |l| < hi <= |l| + 1 + |v|
    ensures IndexOf((l + ['='] + v)[lo..hi], '=') == |l| - lo
  {
    CutAround(l, '=', v, lo, hi, |l| - lo);
    assert forall c :: c in l[lo..] ==> c in l;
    IndexOfAt((l + ['='] + v)[lo..hi], '=', |l| - lo);
  }

  /** Cutting white space off the front of `l` leaves its trimmed text. */
  lemma LeftSideTrims(l: string, v: string, lo: nat, hi: nat, line: string, idx: nat)
    requires lo <= |l| < hi <= |l| + 1 + |v| && IsBlank((l + ['='] + v)[..lo])
    requires line == (l + ['='] + v)[lo..hi] && idx == |l| - lo
    ensures Trim(line[..idx]) == Trim(l)
  {
    CutAround(l, '=', v, lo, hi, idx);
    TrimBlankStart(l, lo);
  }

  /** Cutting white space off the end of `v` leaves its trimmed text. */
  lemma RightSideTrims(l: string, v: string, lo: nat, hi: nat, line: string, idx: nat)
    requires lo <= |l| < hi <= |l| + 1 + |v| && IsBlank((l + ['='] + v)[hi..])
    requires line == (l + ['='] + v)[lo..hi] && idx == |l| - lo
    ensures Trim(line[idx + 1..]) == Trim(v)
  {
    CutAround(l, '=', v, lo, hi, idx);
    TrimBlankEnd(v, hi - |l| - 1);
  }

  /** The trimmed line starts at the `=` exactly when `l` is blank. */
  lemma NothingBeforeEquals(l: string, v: string, lo: nat)
    requires lo <= |l| && IsBlank((l + ['='] + v)[..lo]) && !IsWhite((l + ['='] + v)[lo])
    ensures lo == |l| <==> IsBlank(l)
  {
    assert (l + ['='] + v)[..lo] == l[..lo];
    assert lo < |l| ==> (l + ['='] + v)[lo] == l[lo];
    assert lo == |l| ==> l == l[..lo];
  }

  /** A `key = value` line defines the trimmed key and the trimmed, de-quoted value, unless either is blank. */
  lemma StringEntryOf(l: string, v: string)
    requires '=' !in l && ';' !in l && ';' !in v
    ensures StringEntry(l + ['='] + v) ==
      if IsBlank(l) || IsBlank(TrimQuotes(v)) then None else Some(Entry(Trim(l), TrimQuotes(v)))
  {
    var line, idx := SplitAtEquals(l, v);
    var key, val := Trim(line[..idx]), TrimQuotes(Trim(line[idx + 1..]));
    TrimQuotesTrim(v);
    TrimBlank(l);
    StringEntrySteps(l + ['='] + v, line, idx, key, val);
  }

  /** `StringEntry` once the line is trimmed and its first `=` found. */
  lemma StringEntrySteps(raw: string, line: string, idx: int, key: string, val: string)
    requires line == Trim(StripComments(raw)) && !IsBlank(line) && 0 <= idx < |line| && IndexOf(line, '=') == idx
    requires key == Trim(line[..idx]) && val == TrimQuotes(Trim(line[idx + 1..]))
    ensures StringEntry(raw) == if idx < 1 || IsBlank(key) || IsBlank(val) then None else Some(Entry(key, val))
  {
  }

  /** The table a run of `[Strings]` lines builds, storing entry after entry. */
  function BuildTable(section: seq<string>): (t: StringTable)
    ensures ValidTable(t)
  {
    if section == [] then map[]
    else
      var t := BuildTable(section[..|section| - 1]);
      match StringEntry(section[|section| - 1])
      case None => t
      case Some(e) => Store(t, e.key, e.value)
  }

  /** The string table of a whole file. */
  function StringsTable(lines: seq<string>): StringTable {
    BuildTable(SectionLines(lines, "Strings"))
  }

  /** `ParseStringsSection`: a loop storing each well-formed line into the dictionary. */
  method ParseStringsSection(lines: seq<string>) returns (dict: StringTable)
    ensures dict == StringsTable(lines)
    ensures ValidTable(dict)
    ensures (forall k :: 0 <= k < |lines| ==> !IsHeaderOf(lines[k], "Strings")) ==> dict == map[]
  {
    dict := map[];
    var section := GetSectionLines(lines, "Strings");
    if |section| == 0 {
      return;
    }
    for i := 0 to |section|
      invariant dict == BuildTable(section[..i])
    {
      BuildTableNext(section, i);
      var line := Trim(StripComments(section[i]));
      if IsBlank(line) {
        assert StringEntry(section[i]) == None;
        continue;
      }
      var idx := IndexOf(line, '=');
      if idx < 1 {
        assert StringEntry(section[i]) == None;
        continue;
      }
      var key := Trim(line[..idx]);
      var val := Trim(line[idx + 1..]);
      val := TrimQuotes(val);
      if !IsBlank(key) && !IsBlank(val) {
        assert StringEntry(section[i]) == Some(Entry(key, val));
        dict := Store(dict, key, val);
      } else {
        assert StringEntry(section[i]) == None;
      }
    }
    assert section[..|section|] == section;
  }

  lemma BuildTableNext(section: seq<string>, i: int)
    requires 0 <= i < |section|
    ensures BuildTable(section[..i + 1]) ==
      match StringEntry(section[i])
      case None => BuildTable(section[..i])
      case Some(e) => Store(BuildTable(section[..i]), e.key, e.value)
  {
    assert section[..i + 1][..i] == section[..i];
  }

  /** The line defines a key equal to `key` ignoring case. */
  predicate DefinesKey(raw: string, key: string) {
    StringEntry(raw).Some? && EqualsIgnoreCase(StringEntry(raw).value.key, key)
  }

  /** Last wins: the value of a key is the one on the last line that defines it. */
  lemma {:induction false} LastDefinitionWins(section: seq<string>, j: int, e: Entry)
    requires 0 <= j < |section| && StringEntry(section[j]) == Some(e)
    requires forall k :: j < k < |section| ==> !DefinesKey(section[k], e.key)
    ensures Lookup(BuildTable(section), e.key) == Some(e.value)
  {
    var p := section[..|section| - 1];
    if j == |section| - 1 {
      LastLineStores(section, e);
    } else {
      assert forall k :: j < k < |p| ==> p[k] == section[k];
      LastDefinitionWins(p, j, e);
      OtherLineKeeps(section, e.key);
    }
  }

  /** A key no line defines is not in the table. */
  lemma {:induction false} UndefinedKeyMissing(section: seq<string>, key: string)
    requires forall k :: 0 <= k < |section| ==> !DefinesKey(section[k], key)
    ensures Lookup(BuildTable(section), key) == None
  {
    if section != [] {
      var p := section[..|section| - 1];
      assert forall k :: 0 <= k < |p| ==> p[k] == section[k];
      UndefinedKeyMissing(p, key);
      OtherLineKeeps(section, key);
    }
  }

  /** The last line's entry is what the table holds for its key. */
  lemma LastLineStores(section: seq<string>, e: Entry)
    requires section != [] && StringEntry(section[|section| - 1]) == Some(e)
    ensures Lookup(BuildTable(section), e.key) == Some(e.value)
  {
  }

  /** A last line that does not define `key` leaves its lookup as the earlier lines made it. */
  lemma OtherLineKeeps(section: seq<string>, key: string)
    requires section != [] && !DefinesKey(section[|section| - 1], key)
    ensures Lookup(BuildTable(section), key) == Lookup(BuildTable(section[..|section| - 1]), key)
  {
  }

  // ---------------------------------------------------------------------------
  // [Manufacturer]: the device-list sections
  // ---------------------------------------------------------------------------

  /** The device-list base name a `[Manufacturer]` line declares: the first comma field of its right side. */
  function BaseName(raw: string): (r: Option<string>)
    ensures r.Some? ==> !IsBlank(r.value) && ',' !in r.value && ';' !in r.value
    ensures '=' !in StripComments(raw) ==> r.None?
  {
    var line := Trim(StripComments(raw));
    TrimDropsAbsent(StripComments(raw), ';');
    TrimDropsAbsent(StripComments(raw), '=');
    BaseOfLine(line)
  }

  /** The base a trimmed, comment-free line declares: read from the right of its first `=`. */
  function BaseOfLine(line: string): (r: Option<string>)
    ensures r.Some? ==> !IsBlank(r.value) && ',' !in r.value
    ensures r.Some? && ';' !in line ==> ';' !in r.value
    ensures '=' !in line ==> r.None?
  {
    if IsBlank(line) then None
    else
      var idx := IndexOf(line, '=');
      if idx < 0 then None
      else
        SemicolonFreeRight(line, idx);
        BaseOfRight(Trim(line[idx + 1..]))
  }

  /** A line without `;` leaves none in the trimmed text after position `idx`. */
  lemma SemicolonFreeRight(line: string, idx: nat)
    requires idx < |line|
    ensures ';' !in line ==> ';' !in Trim(line[idx + 1..])
  {
    assert forall c :: c in line[idx + 1..] ==> c in line;
    TrimDropsAbsent(line[idx + 1..], ';');
  }

  /** The base a trimmed right side names: its first field, unless the side or the field is blank. */
  function BaseOfRight(right: string): (r: Option<string>)
    ensures r.Some? ==> !IsBlank(r.value) && ',' !in r.value
    ensures r.Some? && ';' !in right ==> ';' !in r.value
  {
    if IsBlank(right) then None
    else
      var baseName := FirstField(right);
      if IsBlank(baseName) then None else Some(baseName)
  }

  /** The first comma field of a right side, trimmed and de-quoted. */
  function FirstField(right: string): (r: string)
    ensures ',' !in r
    ensures ';' !in right ==> ';' !in r
  {
    var first := Before(right, ',');
    TrimDropsAbsent(first, ',');
    TrimQuotesDropsAbsent(Trim(first), ',');
    TrimDropsAbsent(first, ';');
    TrimQuotesDropsAbsent(Trim(first), ';');
    TrimQuotes(Trim(first))
  }

  /**
   * A `[Manufacturer]` line `l = b, ...` (or just `l = b`) declares `b` trimmed and de-quoted,
   * unless that is blank; the left side plays no part.
   */
  lemma BaseNameOf(l: string, b: string, q: string)
    requires '=' !in l && ';' !in l && ';' !in b && ';' !in q
    requires ',' !in b && (q == [] || q[0] == ',')
    ensures BaseName(l + ['='] + b + q) == if IsBlank(TrimQuotes(b)) then None else Some(TrimQuotes(b))
  {
    var raw := l + ['='] + b + q;
    assert raw == l + ['='] + (b + q);
    var line, idx := SplitAtEquals(l, b + q);
    var right := Trim(line[idx + 1..]);
    assert right == Trim(b + q);
    FirstFieldOf(b, q);
    BaseNameSteps(raw, line, idx, right);
    assert BaseOfRight(right) == if IsBlank(TrimQuotes(b)) then None else Some(TrimQuotes(b));
  }

  /** The first field of `b, ...` (or of `b` alone) is `b` trimmed and de-quoted. */
  lemma FirstFieldOf(b: string, q: string)
    requires ',' !in b && (q == [] || q[0] == ',')
    ensures FirstField(Trim(b + q)) == TrimQuotes(b)
    ensures IsBlank(Trim(b + q)) ==> TrimQuotes(b) == []
  {
    TrimFirstField(b, q, ',');
    TrimQuotesTrim(b);
    if IsBlank(Trim(b + q)) {
      assert Trim(b + q) == [] && Before([], ',') == [];
    }
  }

  /** `BaseName` once the line is trimmed and its first `=` found. */
  lemma BaseNameSteps(raw: string, line: string, idx: int, right: string)
    requires line == Trim(StripComments(raw)) && !IsBlank(line) && 0 <= idx < |line| && IndexOf(line, '=') == idx
    requires right == Trim(line[idx + 1..])
    ensures BaseName(raw) == BaseOfRight(right)
  {
    assert BaseName(raw) == BaseOfLine(line);
  }

  /** Section `sec` belongs to base name `b`: it is `b` or `b.<qualifiers>`, ignoring case. */
  predicate Expands(sec: string, b: string) {
    StartsWithIgnoreCase(sec, b + ".") || EqualsIgnoreCase(sec, b)
  }

  /** The section a line names, when it is a header belonging to `b`. */
  function HeaderFor(b: string, line: string): Option<string> {
    if IsHeaderLine(line) && Expands(HeaderName(line), b) then Some(HeaderName(line)) else None
  }

  /** The names of the headers in `lines` that belong to `b`, in file order. */
  function HeadersMatching(lines: seq<string>, b: string): seq<string> {
    FilterMap(l => HeaderFor(b, l), lines)
  }

  lemma HeadersMatchingNext(lines: seq<string>, b: string, i: int)
    requires 0 <= i < |lines|
    ensures HeadersMatching(lines[..i + 1], b) ==
      HeadersMatching(lines[..i], b) + match HeaderFor(b, lines[i]) case None => [] case Some(h) => [h]
  {
    var f := l => HeaderFor(b, l);
    FilterMapNext(f, lines, i);
    assert f(lines[i]) == HeaderFor(b, lines[i]);
  }

  /** The matching headers of the base name a `[Manufacturer]` line declares, if any. */
  function HeadersOf(lines: seq<string>, raw: string): seq<string> {
    match BaseName(raw)
    case None => []
    case Some(b) => HeadersMatching(lines, b)
  }

  /** The matching headers of every base name declared in `section`, in order, duplicates kept. */
  function Collected(section: seq<string>, lines: seq<string>): seq<string> {
    FlatMap(raw => HeadersOf(lines, raw), section)
  }

  function ManufacturerSections(lines: seq<string>): seq<string> {
    Distinct(Collected(SectionLines(lines, "Manufacturer"), lines))
  }

  /** The inner loop of `ParseManufacturerSections`: every header of the file that belongs to
      `baseName`, in file order. */
  method HeadersBelongingTo(lines: seq<string>, baseName: string) returns (found: seq<string>)
    ensures found == HeadersMatching(lines, baseName)
  {
    found := [];
    assert lines[..0] == [];
    for i := 0 to |lines|
      invariant found == HeadersMatching(lines[..i], baseName)
    {
      HeadersMatchingNext(lines, baseName, i);
      var t := Trim(lines[i]);
      if StartsWithChar(t, '[') && EndsWithChar(t, ']') {
        var sec := t[1..|t| - 1];
        if StartsWithIgnoreCase(sec, baseName + ".") || EqualsIgnoreCase(sec, baseName) {
          assert HeaderFor(baseName, lines[i]) == Some(sec);
          found := found + [sec];
        } else {
          assert HeaderFor(baseName, lines[i]) == None;
        }
      } else {
        assert HeaderFor(baseName, lines[i]) == None;
      }
    }
    assert lines[..|lines|] == lines;
  }

  /** `ParseManufacturerSections`: for each base name, a scan of every header of the file. */
  method ParseManufacturerSections(lines: seq<string>) returns (sections: seq<string>)
    ensures sections == ManufacturerSections(lines)
    ensures NoCaseDuplicates(sections)
  {
    var section := GetSectionLines(lines, "Manufacturer");
    var result: seq<string> := [];
    for j := 0 to |section|
      invariant result == Collected(section[..j], lines)
    {
      FlatMapNext(raw => HeadersOf(lines, raw), section, j);
      var line := Trim(StripComments(section[j]));
      if IsBlank(line) {
        assert BaseName(section[j]) == None;
        continue;
      }
      var idx := IndexOf(line, '=');
      if idx < 0 {
        assert BaseName(section[j]) == None;
        continue;
      }
      var right := Trim(line[idx + 1..]);
      if IsBlank(right) {
        assert BaseName(section[j]) == None;
        continue;
      }
      var first := Split(right, ',')[0];
      assert first == Before(right, ',');
      var baseName := Trim(first);
      baseName := TrimQuotes(baseName);
      if IsBlank(baseName) {
        assert BaseName(section[j]) == None;
        continue;
      }
      assert BaseName(section[j]) == Some(baseName);
      var found := HeadersBelongingTo(lines, baseName);
      result := result + found;
    }
    assert section[..|section|] == section;
    sections := Distinct(result);
    DistinctKeepsClasses(result);
  }

  /** Some header line of `lines` names section `s`. */
  predicate IsSectionOf(lines: seq<string>, s: string) {
    exists i :: 0 <= i < |lines| && IsHeaderLine(lines[i]) && HeaderName(lines[i]) == s
  }

  /** Some line of `section` declares base name `b`. */
  predicate DeclaresBase(section: seq<string>, b: string) {
    exists j :: 0 <= j < |section| && BaseName(section[j]) == Some(b)
  }

  lemma HeadersMatchingMembers(lines: seq<string>, b: string, s: string)
    ensures s in HeadersMatching(lines, b) <==> IsSectionOf(lines, s) && Expands(s, b)
  {
    FilterMapMembers(l => HeaderFor(b, l), lines, s);
    if IsSectionOf(lines, s) && Expands(s, b) {
      var i :| 0 <= i < |lines| && IsHeaderLine(lines[i]) && HeaderName(lines[i]) == s;
      assert HeaderFor(b, lines[i]) == Some(s);
    }
  }

  lemma CollectedMembers(section: seq<string>, lines: seq<string>, s: string)
    ensures s in Collected(section, lines) <==> IsSectionOf(lines, s) && exists b :: DeclaresBase(section, b) && Expands(s, b)
  {
    FlatMapMembers(raw => HeadersOf(lines, raw), section, s);
    if s in Collected(section, lines) {
      var j :| 0 <= j < |section| && s in HeadersOf(lines, section[j]);
      var b := BaseName(section[j]).value;
      HeadersMatchingMembers(lines, b, s);
      assert DeclaresBase(section, b);
    }
    if IsSectionOf(lines, s) && exists b :: DeclaresBase(section, b) && Expands(s, b) {
      var b :| DeclaresBase(section, b) && Expands(s, b);
      var j :| 0 <= j < |section| && BaseName(section[j]) == Some(b);
      HeadersMatchingMembers(lines, b, s);
      assert s in HeadersOf(lines, section[j]);
    }
  }

  /**
   * Every returned section is a header of the file and belongs to a base name declared
   * in `[Manufacturer]`; and every such header is returned, up to letter case.
   */
  lemma ManufacturerSectionsExact(lines: seq<string>, s: string)
    ensures s in ManufacturerSections(lines) ==>
      IsSectionOf(lines, s) && exists b :: DeclaresBase(SectionLines(lines, "Manufacturer"), b) && Expands(s, b)
    ensures IsSectionOf(lines, s) && (exists b :: DeclaresBase(SectionLines(lines, "Manufacturer"), b) && Expands(s, b)) ==>
      ContainsIgnoreCase(ManufacturerSections(lines), s)
  {
    var section := SectionLines(lines, "Manufacturer");
    var c := Collected(section, lines);
    DistinctKeepsClasses(c);
    CollectedMembers(section, lines, s);
    if s in c {
      var k :| 0 <= k < |c| && c[k] == s;
      assert ContainsIgnoreCase(c, s);
    }
  }

  // ---------------------------------------------------------------------------
  // Device-list sections: tokens and their resolution
  // ---------------------------------------------------------------------------

  /** The left side of a `token = install-section` line, if it is well formed. */
  function LeftToken(raw: string): (r: Option<string>)
    ensures IndexOf(Trim(StripComments(raw)), '=') < 1 ==> r.None?
    ensures r.Some? ==> IsTrimmed(r.value) && !IsBlank(r.value) && '=' !in r.value && ';' !in r.value
  {
    var line := Trim(StripComments(raw));
    if IsBlank(line) then None
    else
      var idx := IndexOf(line, '=');
      if idx < 1 then None
      else
        var left := Trim(line[..idx]);
        TrimDropsAbsent(StripComments(raw), ';');
        TrimDropsAbsent(line[..idx], '=');
        TrimDropsAbsent(line[..idx], ';');
        if !IsBlank(left) then Some(left) else None
  }

  /** A `token = install-section` line yields its left side trimmed, unless that is blank. */
  lemma LeftTokenOf(l: string, v: string)
    requires '=' !in l && ';' !in l && ';' !in v
    ensures LeftToken(l + ['='] + v) == if IsBlank(l) then None else Some(Trim(l))
  {
    var line, idx := SplitAtEquals(l, v);
    TrimBlank(l);
  }

  /** The three line parsers see only what precedes the first `;`. */
  lemma CommentIgnored(raw: string)
    ensures StringEntry(raw) == StringEntry(StripComments(raw))
    ensures BaseName(raw) == BaseName(StripComments(raw))
    ensures LeftToken(raw) == LeftToken(StripComments(raw))
  {
    StripCommentsIdempotent(raw);
  }

  /** The tokens of a run of section lines, in order. */
  function Tokens(section: seq<string>): (r: seq<string>)
    ensures forall t :: t in r ==> IsTrimmed(t) && !IsBlank(t) && '=' !in t && ';' !in t
  {
    var r := FilterMap(LeftToken, section);
    assert forall t :: t in r ==> IsTrimmed(t) && !IsBlank(t) && '=' !in t && ';' !in t by {
      forall t | t in r ensures IsTrimmed(t) && !IsBlank(t) && '=' !in t && ';' !in t {
        FilterMapMembers(LeftToken, section, t);
      }
    }
    r
  }

  /** `ExtractLeftSideTokensFromSection`: the iterator's yields, collected in order. */
  method ExtractLeftSideTokensFromSection(lines: seq<string>, sectionName: string) returns (tokens: seq<string>)
    ensures tokens == Tokens(SectionLines(lines, sectionName))
  {
    var secLines := GetSectionLines(lines, sectionName);
    tokens := [];
    for i := 0 to |secLines|
      invariant tokens == FilterMap(LeftToken, secLines[..i])
    {
      FilterMapNext(LeftToken, secLines, i);
      var line := Trim(StripComments(secLines[i]));
      if IsBlank(line) {
        assert LeftToken(secLines[i]) == None;
        continue;
      }
      var idx := IndexOf(line, '=');
      if idx < 1 {
        assert LeftToken(secLines[i]) == None;
        continue;
      }
      var left := Trim(line[..idx]);
      if !IsBlank(left) {
        assert LeftToken(secLines[i]) == Some(left);
        tokens := tokens + [left];
      }
    }
    assert secLines[..|secLines|] == secLines;
  }

  /** A `%KEY%` reference: starts and ends with `%` and has something in between. */
  predicate IsPercentToken(t: string) {
    StartsWithChar(t, '%') && EndsWithChar(t, '%') && |t| > 2
  }

  /**
   * `ResolveToken`: a quoted token is its own display name, a `%KEY%` token is looked up
   * (inner key first, then the whole token), any other token is taken as it is.
   */
  function ResolveToken(token: string, strings: StringTable): (r: Option<string>)
    ensures r.None? ==> IsPercentToken(Trim(token))
    ensures ValidTable(strings) && IsPercentToken(Trim(token)) && r.Some? ==> !IsBlank(r.value)
    ensures (!(StartsWithChar(Trim(token), '"') && EndsWithChar(Trim(token), '"'))
             && !IsPercentToken(Trim(token))) ==> r == Some(Trim(token))
    ensures StartsWithChar(Trim(token), '"') && EndsWithChar(Trim(token), '"')
            ==> r == Some(TrimQuotes(token))
  {
    var t := Trim(token);
    TrimTrimmed(t);
    if StartsWithChar(t, '"') && EndsWithChar(t, '"') then Some(TrimQuotes(t))
    else if StartsWithChar(t, '%') && EndsWithChar(t, '%') && |t| > 2 then
      var key := Trim(t[1..|t| - 1]);
      match Lookup(strings, key)
      case Some(display) => Some(display)
      case None => Lookup(strings, t)
    else Some(t)
  }

  /** A token that trims to a lone `"` takes the quoted branch and resolves to `"` itself. */
  lemma ResolveLoneQuote(token: string, strings: StringTable)
    requires Trim(token) == ['"']
    ensures ResolveToken(token, strings) == Some(['"'])
  {
    assert !IsQuoted(Trim(token));
  }

  /** A quoted literal bypasses the table and resolves to the text inside the quotes. */
  lemma ResolveQuotedLiteral(token: string, x: string, strings: StringTable)
    requires Trim(token) == ['"'] + x + ['"']
    ensures ResolveToken(token, strings) == Some(x)
  {
    TrimQuotesUndoesQuote(x);
  }

  /** `%KEY%` resolves to the table's value for the trimmed KEY, else for the whole `%KEY%`. */
  lemma ResolveKeyReference(token: string, key: string, strings: StringTable)
    requires Trim(token) == ['%'] + key + ['%'] && key != []
    ensures Lookup(strings, Trim(key)).Some? ==> ResolveToken(token, strings) == Lookup(strings, Trim(key))
    ensures Lookup(strings, Trim(key)).None? ==> ResolveToken(token, strings) == Lookup(strings, Trim(token))
  {
    var t := Trim(token);
    assert t[1..|t| - 1] == key;
  }

  /** With an empty table, exactly the `%KEY%` tokens resolve to nothing. */
  lemma ResolveWithoutTable(token: string)
    ensures ResolveToken(token, map[]).None? <==> IsPercentToken(Trim(token))
  {
  }

  // ---------------------------------------------------------------------------
  // The entry point
  // ---------------------------------------------------------------------------

  /** The display name one token contributes: its resolution, trimmed, unless that is blank. */
  function NameOf(token: string, strings: StringTable): (r: Option<string>)
    ensures r.Some? ==> IsTrimmed(r.value) && !IsBlank(r.value)
  {
    match ResolveToken(token, strings)
    case Some(d) => if !IsBlank(d) then Some(Trim(d)) else None
    case None => None
  }

  /** The trimmed, non-blank display names of a run of tokens, in order. */
  function ResolvedNames(tokens: seq<string>, strings: StringTable): seq<string> {
    FilterMap(t => NameOf(t, strings), tokens)
  }

  /** One more token appends its display name, if it has one, to what came before. */
  lemma ResolvedNamesNext(before: seq<string>, tokens: seq<string>, strings: StringTable, j: int)
    requires 0 <= j < |tokens|
    ensures before + ResolvedNames(tokens[..j + 1], strings) ==
      before + ResolvedNames(tokens[..j], strings) + match NameOf(tokens[j], strings) case None => [] case Some(n) => [n]
  {
    var f := t => NameOf(t, strings);
    FilterMapNext(f, tokens, j);
    assert f(tokens[j]) == NameOf(tokens[j], strings);
  }

  /** The token list of every section in `sections`, in order. */
  function SectionTokens(lines: seq<string>, sections: seq<string>): (r: seq<seq<string>>)
    ensures |r| == |sections|
    ensures forall k :: 0 <= k < |sections| ==> r[k] == Tokens(SectionLines(lines, sections[k]))
  {
    seq(|sections|, k requires 0 <= k < |sections| => Tokens(SectionLines(lines, sections[k])))
  }

  /** The display names of every token list, in order, duplicates kept. */
  function NamesOfTokenLists(lists: seq<seq<string>>, strings: StringTable): seq<string> {
    FlatMap(tokens => ResolvedNames(tokens, strings), lists)
  }

  lemma NamesOfTokenListsNext(lists: seq<seq<string>>, strings: StringTable, i: int)
    requires 0 <= i < |lists|
    ensures NamesOfTokenLists(lists[..i + 1], strings) == NamesOfTokenLists(lists[..i], strings) + ResolvedNames(lists[i], strings)
  {
    var f := tokens => ResolvedNames(tokens, strings);
    FlatMapNext(f, lists, i);
    assert f(lists[i]) == ResolvedNames(lists[i], strings);
  }

  /** Every display name the file yields, before the case-insensitive set removes repeats. */
  function Candidates(lines: seq<string>): seq<string> {
    NamesOfTokenLists(SectionTokens(lines, ManufacturerSections(lines)), StringsTable(lines))
  }

  /**
   * The inner loop of `ExtractModelDisplayNames`: resolves each token of one section and
   * adds every non-blank display name, trimmed, to the case-insensitive set `models`, which
   * holds the distinct names of `seen`.
   */
  method AddDisplayNames(models: seq<string>, ghost seen: seq<string>, tokens: seq<string>, strings: StringTable)
    returns (models': seq<string>)
    requires models == Distinct(seen)
    ensures models' == Distinct(seen + ResolvedNames(tokens, strings))
  {
    models' := models;
    assert seen + ResolvedNames(tokens[..0], strings) == seen by {
      assert tokens[..0] == [];
    }
    for j := 0 to |tokens|
      invariant models' == Distinct(seen + ResolvedNames(tokens[..j], strings))
    {
      ghost var done := seen + ResolvedNames(tokens[..j], strings);
      ResolvedNamesNext(seen, tokens, strings, j);
      var display := ResolveToken(tokens[j], strings);
      if display.Some? && !IsBlank(display.value) {
        var name := Trim(display.value);
        assert NameOf(tokens[j], strings) == Some(name);
        assert seen + ResolvedNames(tokens[..j + 1], strings) == done + [name];
        DistinctNext(done, name);
        models' := Add(models', name);
      } else {
        assert NameOf(tokens[j], strings) == None;
        assert seen + ResolvedNames(tokens[..j + 1], strings) == done;
      }
    }
    assert tokens[..|tokens|] == tokens;
  }

  /** The result the extractor promises: the candidate names, one per case-insensitive
      class, sorted. */
  function DisplayNames(lines: seq<string>): seq<string> {
    Sort(Distinct(Candidates(lines)))
  }

  /** `ExtractModelDisplayNames`, over the already-read lines of the file. */
  method ExtractModelDisplayNames(lines: seq<string>) returns (names: seq<string>)
    ensures names == DisplayNames(lines)
  {
    var strings := ParseStringsSection(lines);
    var manufacturerSections := ParseManufacturerSections(lines);
    var models := CollectDisplayNames(lines, manufacturerSections, strings);
    names := Sort(models);
  }

  /** The outer loop of `ExtractModelDisplayNames`: the case-insensitive set of the display
      names of every section's tokens. */
  method CollectDisplayNames(lines: seq<string>, sections: seq<string>, strings: StringTable)
    returns (models: seq<string>)
    ensures models == Distinct(NamesOfTokenLists(SectionTokens(lines, sections), strings))
  {
    models := [];
    ghost var seen: seq<string> := [];
    ghost var lists := SectionTokens(lines, sections);
    for i := 0 to |sections|
      invariant seen == NamesOfTokenLists(lists[..i], strings)
      invariant models == Distinct(seen)
    {
      NamesOfTokenListsNext(lists, strings, i);
      var tokens := ExtractLeftSideTokensFromSection(lines, sections[i]);
      assert tokens == lists[i];
      models := AddDisplayNames(models, seen, tokens, strings);
      seen := seen + ResolvedNames(tokens, strings);
    }
    assert lists[..|lists|] == lists;
  }

  /** The result is sorted, has no two entries equal ignoring case, holds only trimmed
      non-blank names, and holds every candidate name up to case and nothing else. */
  lemma DisplayNamesShape(lines: seq<string>)
    ensures Sorted(DisplayNames(lines)) && NoCaseDuplicates(DisplayNames(lines))
    ensures forall n :: n in DisplayNames(lines) ==> IsTrimmed(n) && !IsBlank(n)
    ensures forall n :: ContainsIgnoreCase(DisplayNames(lines), n) <==> ContainsIgnoreCase(Candidates(lines), n)
  {
    SortedDistinct(Candidates(lines));
    forall n | n in DisplayNames(lines) ensures IsTrimmed(n) && !IsBlank(n) {
      CandidatesTrimmed(lines, n);
    }
  }

  /** A file without a `[Manufacturer]` section declares no model names. */
  lemma NoManufacturerNoNames(lines: seq<string>)
    requires forall k :: 0 <= k < |lines| ==> !IsHeaderOf(lines[k], "Manufacturer")
    ensures DisplayNames(lines) == []
  {
    assert SectionLines(lines, "Manufacturer") == [];
    assert ManufacturerSections(lines) == [];
    assert SectionTokens(lines, []) == [];
  }

  /** The token resolves to a non-blank display name that trims to `n`. */
  predicate ResolvesTo(tok: string, strings: StringTable, n: string) {
    NameOf(tok, strings) == Some(n)
  }

  /** A name comes from a run of tokens exactly when one of them resolves to it. */
  lemma ResolvedNamesOrigin(tokens: seq<string>, strings: StringTable, n: string)
    ensures n in ResolvedNames(tokens, strings) <==> exists tok :: tok in tokens && ResolvesTo(tok, strings, n)
  {
    var f := t => NameOf(t, strings);
    FilterMapMembers(f, tokens, n);
    if n in ResolvedNames(tokens, strings) {
      var k :| 0 <= k < |tokens| && f(tokens[k]) == Some(n);
      assert ResolvesTo(tokens[k], strings, n);
    }
    if exists tok :: tok in tokens && ResolvesTo(tok, strings, n) {
      var tok :| tok in tokens && ResolvesTo(tok, strings, n);
      var k :| 0 <= k < |tokens| && tokens[k] == tok;
      assert f(tokens[k]) == Some(n);
    }
  }

  /** Where the names come from: a name is a candidate exactly when some token of some
      token list resolves to a non-blank text that trims to it. */
  lemma CandidateOrigin(lists: seq<seq<string>>, strings: StringTable, n: string)
    ensures n in NamesOfTokenLists(lists, strings) <==>
      exists k, tok :: 0 <= k < |lists| && tok in lists[k] && ResolvesTo(tok, strings, n)
  {
    var f := tokens => ResolvedNames(tokens, strings);
    FlatMapMembers(f, lists, n);
    if n in NamesOfTokenLists(lists, strings) {
      var k :| 0 <= k < |lists| && n in f(lists[k]);
      ResolvedNamesOrigin(lists[k], strings, n);
    }
    if exists k, tok :: 0 <= k < |lists| && tok in lists[k] && ResolvesTo(tok, strings, n) {
      var k, tok :| 0 <= k < |lists| && tok in lists[k] && ResolvesTo(tok, strings, n);
      ResolvedNamesOrigin(lists[k], strings, n);
      assert n in f(lists[k]);
    }
  }

  /** Every candidate is trimmed and not blank. */
  lemma CandidatesTrimmed(lines: seq<string>, n: string)
    requires n in Candidates(lines)
    ensures IsTrimmed(n) && !IsBlank(n)
  {
    CandidateOrigin(SectionTokens(lines, ManufacturerSections(lines)), StringsTable(lines), n);
  }

  /** A file without `[Strings]`: no `%KEY%` token of any device-list section resolves. */
  lemma NoStringsSectionDropsKeys(lines: seq<string>, tok: string)
    requires forall k :: 0 <= k < |lines| ==> !IsHeaderOf(lines[k], "Strings")
    requires IsPercentToken(Trim(tok))
    ensures ResolveToken(tok, StringsTable(lines)) == None
  {
    assert SectionLines(lines, "Strings") == [];
    ResolveWithoutTable(tok);
  }
}
