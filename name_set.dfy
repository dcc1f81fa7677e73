/**
 * The collections both model-name extractors finish with: a
 * `HashSet<string>(StringComparer.OrdinalIgnoreCase)` (or `Distinct` under the
 * same comparer), kept as a sequence in insertion order, and `OrderBy(x => x)`,
 * modelled as a stable sort by ordinal (character code) order.
 */
module NameSet {
  import opened Wrappers
  import opened Text

  /** Some element of `s` equals `x` ignoring case: `HashSet.Contains`. */
  predicate ContainsIgnoreCase(s: seq<string>, x: string) {
    exists k :: 0 <= k < |s| && Fold(s[k]) == Fold(x)
  }

  /** No two elements of `s` are equal ignoring case: the set's invariant. */
  predicate NoCaseDuplicates(s: seq<string>) {
    forall i, j :: 0 <= i < j < |s| ==> Fold(s[i]) != Fold(s[j])
  }

  /** `s[k]` is the first element of its case-insensitive class in `s`. */
  predicate FirstOfItsCase(s: seq<string>, k: int)
    requires 0 <= k < |s|
  {
    forall j :: 0 <= j < k ==> Fold(s[j]) != Fold(s[k])
  }

  lemma ContainsSnoc(p: seq<string>, x: string, y: string)
    ensures ContainsIgnoreCase(p + [x], y) <==> ContainsIgnoreCase(p, y) || Fold(y) == Fold(x)
  {
    var s := p + [x];
    if ContainsIgnoreCase(p, y) {
      var k :| 0 <= k < |p| && Fold(p[k]) == Fold(y);
      assert s[k] == p[k];
    }
    if Fold(y) == Fold(x) {
      assert s[|p|] == x;
    }
    if ContainsIgnoreCase(s, y) {
      var k :| 0 <= k < |s| && Fold(s[k]) == Fold(y);
      if k < |p| { assert s[k] == p[k]; }
    }
  }

  /** `HashSet.Add`: an element equal to `x` ignoring case keeps its place and spelling. */
  function Add(s: seq<string>, x: string): seq<string> {
    if ContainsIgnoreCase(s, x) then s else s + [x]
  }

  /** What `Add` keeps: the set invariant, the classes of `s` and of `x`, and only the
      entries of `s` plus `x` itself when its class was new. */
  lemma AddSpec(s: seq<string>, x: string)
    ensures NoCaseDuplicates(s) ==> NoCaseDuplicates(Add(s, x))
    ensures ContainsIgnoreCase(Add(s, x), x)
    ensures forall y :: ContainsIgnoreCase(Add(s, x), y) <==> ContainsIgnoreCase(s, y) || Fold(y) == Fold(x)
    ensures forall y :: y in Add(s, x) <==> y in s || (y == x && !ContainsIgnoreCase(s, x))
  {
    if !ContainsIgnoreCase(s, x) {
      var r := s + [x];
      forall y ensures ContainsIgnoreCase(r, y) <==> ContainsIgnoreCase(s, y) || Fold(y) == Fold(x) {
        ContainsSnoc(s, x, y);
      }
      if NoCaseDuplicates(s) {
        forall i, j | 0 <= i < j < |r| ensures Fold(r[i]) != Fold(r[j]) {
          if j == |s| {
            assert r[i] == s[i];
          }
        }
      }
    }
  }

  /** `Distinct(StringComparer.OrdinalIgnoreCase)`, and equally a run of `Add`s into an empty set. */
  function Distinct(s: seq<string>): seq<string>
  {
    if s == [] then [] else Add(Distinct(s[..|s| - 1]), s[|s| - 1])
  }

  /** Adding one more element to the input is one more `Add`. */
  lemma DistinctNext(s: seq<string>, x: string)
    ensures Distinct(s + [x]) == Add(Distinct(s), x)
  {
    assert (s + [x])[..|s|] == s;
  }

  /** The distinct list is a set (no two entries equal ignoring case) whose entries come from
      the input and which holds every case-insensitive class of the input. */
  lemma {:induction false} DistinctKeepsClasses(s: seq<string>)
    ensures NoCaseDuplicates(Distinct(s))
    ensures forall y :: y in Distinct(s) ==> y in s
    ensures forall y :: ContainsIgnoreCase(Distinct(s), y) <==> ContainsIgnoreCase(s, y)
  {
    if s != [] {
      var p, x := s[..|s| - 1], s[|s| - 1];
      assert s == p + [x];
      DistinctKeepsClasses(p);
      AddSpec(Distinct(p), x);
      forall y ensures ContainsIgnoreCase(s, y) <==> ContainsIgnoreCase(p, y) || Fold(y) == Fold(x) {
        ContainsSnoc(p, x, y);
      }
    }
  }

  /** Of the entries equal ignoring case, the first one seen is the one kept. */
  lemma {:induction false} DistinctKeepsFirst(s: seq<string>, k: int)
    requires 0 <= k < |s| && FirstOfItsCase(s, k)
    ensures s[k] in Distinct(s)
  {
    var p, x := s[..|s| - 1], s[|s| - 1];
    assert s == p + [x];
    if k < |p| {
      assert FirstOfItsCase(p, k);
      DistinctKeepsFirst(p, k);
    } else {
      DistinctKeepsClasses(p);
      AddSpec(Distinct(p), x);
      assert !ContainsIgnoreCase(p, x);
    }
  }

  /** Ordinal string order: character codes compared left to right, a prefix first. */
  predicate Below(a: string, b: string) {
    a == [] || (b != [] && (a[0] < b[0] || (a[0] == b[0] && Below(a[1..], b[1..]))))
  }

  lemma {:induction false} BelowTotal(a: string, b: string)
    ensures Below(a, b) || Below(b, a)
  {
    if a != [] && b != [] && a[0] == b[0] {
      BelowTotal(a[1..], b[1..]);
    }
  }

  lemma {:induction false} BelowTransitive(a: string, b: string, c: string)
    requires Below(a, b) && Below(b, c)
    ensures Below(a, c)
  {
    if a != [] && a[0] == b[0] && b[0] == c[0] {
      BelowTransitive(a[1..], b[1..], c[1..]);
    }
  }

  lemma {:induction false} BelowAntisymmetric(a: string, b: string)
    requires Below(a, b) && Below(b, a)
    ensures a == b
  {
    if a != [] {
      BelowAntisymmetric(a[1..], b[1..]);
      assert a == [a[0]] + a[1..] && b == [b[0]] + b[1..];
    }
  }

  predicate Sorted(s: seq<string>) {
    forall i, j :: 0 <= i < j < |s| ==> Below(s[i], s[j])
  }

  function Insert(x: string, s: seq<string>): (r: seq<string>)
    requires Sorted(s)
    ensures Sorted(r)
    ensures multiset(r) == multiset(s) + multiset{x}
  {
    if s == [] then [x]
    else if Below(x, s[0]) then
      InsertFront(x, s);
      [x] + s
    else
      BelowTotal(x, s[0]);
      var t := Insert(x, s[1..]);
      assert s == [s[0]] + s[1..];
      InsertBehind(x, s, t);
      [s[0]] + t
  }

  lemma InsertFront(x: string, s: seq<string>)
    requires Sorted(s) && s != [] && Below(x, s[0])
    ensures Sorted([x] + s)
  {
    forall j | 0 <= j < |s| ensures Below(x, s[j]) {
      if j > 0 { BelowTransitive(x, s[0], s[j]); }
    }
  }

  lemma InsertBehind(x: string, s: seq<string>, t: seq<string>)
    requires Sorted(s) && s != [] && Below(s[0], x)
    requires Sorted(t) && multiset(t) == multiset(s[1..]) + multiset{x}
    ensures Sorted([s[0]] + t)
  {
    forall j | 0 <= j < |t| ensures Below(s[0], t[j]) {
      assert t[j] in multiset(t);
      if t[j] != x {
        assert t[j] in s[1..];
      }
    }
  }

  lemma {:induction false} InsertKeepsSet(x: string, s: seq<string>)
    requires Sorted(s) && NoCaseDuplicates(s) && !ContainsIgnoreCase(s, x)
    ensures NoCaseDuplicates(Insert(x, s))
  {
    if s == [] {
    } else if Below(x, s[0]) {
      var r := [x] + s;
      forall i, j | 0 <= i < j < |r| ensures Fold(r[i]) != Fold(r[j]) {
        if i == 0 { assert r[j] == s[j - 1]; }
      }
    } else {
      var s' := s[1..];
      assert !ContainsIgnoreCase(s', x);
      assert NoCaseDuplicates(s') by {
        forall i, j | 0 <= i < j < |s'| ensures Fold(s'[i]) != Fold(s'[j]) {
          assert s'[i] == s[i + 1] && s'[j] == s[j + 1];
        }
      }
      InsertKeepsSet(x, s');
      assert Fold(s[0]) != Fold(x);
      ConsKeepsSet(s, Insert(x, s'), x);
    }
  }

  /** Putting back the head of a case-distinct list in front of its tail with `x` added
      keeps it case-distinct when the head differs from `x`. */
  lemma ConsKeepsSet(s: seq<string>, t: seq<string>, x: string)
    requires s != [] && NoCaseDuplicates(s) && NoCaseDuplicates(t) && Fold(s[0]) != Fold(x)
    requires multiset(t) == multiset(s[1..]) + multiset{x}
    ensures NoCaseDuplicates([s[0]] + t)
  {
    var r := [s[0]] + t;
    forall i, j | 0 <= i < j < |r| ensures Fold(r[i]) != Fold(r[j]) {
      if i == 0 {
        assert r[j] == t[j - 1];
        assert t[j - 1] in multiset(t);
        if t[j - 1] != x {
          assert t[j - 1] in s[1..];
          var k :| 0 <= k < |s| - 1 && s[1..][k] == t[j - 1];
          assert s[k + 1] == t[j - 1];
        }
      } else {
        assert r[i] == t[i - 1] && r[j] == t[j - 1];
      }
    }
  }

  /** `OrderBy(x => x)` under ordinal order: a sorted permutation of its input. */
  function Sort(s: seq<string>): (r: seq<string>)
    ensures Sorted(r)
    ensures multiset(r) == multiset(s)
  {
    if s == [] then []
    else
      assert s == [s[0]] + s[1..];
      Insert(s[0], Sort(s[1..]))
  }

  /** Sorting a case-insensitive set leaves a set. */
  lemma {:induction false} SortKeepsSet(s: seq<string>)
    requires NoCaseDuplicates(s)
    ensures NoCaseDuplicates(Sort(s))
  {
    if s != [] {
      var s' := s[1..];
      assert s == [s[0]] + s';
      assert NoCaseDuplicates(s') by {
        forall i, j | 0 <= i < j < |s'| ensures Fold(s'[i]) != Fold(s'[j]) {
          assert s'[i] == s[i + 1] && s'[j] == s[j + 1];
        }
      }
      SortKeepsSet(s');
      var t := Sort(s');
      assert !ContainsIgnoreCase(t, s[0]) by {
        forall k | 0 <= k < |t| ensures Fold(t[k]) != Fold(s[0]) {
          assert t[k] in multiset(t);
          var m :| 0 <= m < |s'| && s'[m] == t[k];
          assert s[m + 1] == t[k];
        }
      }
      InsertKeepsSet(s[0], t);
    }
  }

  /** `Distinct` then `OrderBy`: a sorted case-insensitive set of entries of `s`, holding
      every case-insensitive class of `s`. */
  lemma SortedDistinct(s: seq<string>)
    ensures Sorted(Sort(Distinct(s))) && NoCaseDuplicates(Sort(Distinct(s)))
    ensures forall y :: y in Sort(Distinct(s)) ==> y in s
    ensures forall y :: ContainsIgnoreCase(Sort(Distinct(s)), y) <==> ContainsIgnoreCase(s, y)
  {
    var d := Distinct(s);
    DistinctKeepsClasses(s);
    SortKeepsSet(d);
    forall y | y in Sort(d) ensures y in s {
      assert y in multiset(Sort(d));
    }
    forall y ensures ContainsIgnoreCase(Sort(d), y) <==> ContainsIgnoreCase(s, y) {
      SortedSetMembers(d, y);
    }
  }

  /** Sorting a case-insensitive set keeps the set: the same classes, still one spelling each. */
  lemma SortedSetMembers(s: seq<string>, y: string)
    ensures ContainsIgnoreCase(Sort(s), y) <==> ContainsIgnoreCase(s, y)
  {
    var r := Sort(s);
    if ContainsIgnoreCase(s, y) {
      var k :| 0 <= k < |s| && Fold(s[k]) == Fold(y);
      assert s[k] in multiset(r);
      var m :| 0 <= m < |r| && r[m] == s[k];
    }
    if ContainsIgnoreCase(r, y) {
      var k :| 0 <= k < |r| && Fold(r[k]) == Fold(y);
      assert r[k] in multiset(s);
      var m :| 0 <= m < |s| && s[m] == r[k];
    }
  }
}
