/** String helpers the source takes from Python's standard library:
    str.lower, the ordering used by sorted, and str.replace. */
module Strings {

  /** ASCII case folding; Python's full Unicode case mapping is not modelled. */
  function LowerChar(c: char): char
  {
    if 'A' <= c <= 'Z' then (c as int - 'A' as int + 'a' as int) as char else c
  }

  function Lower(s: string): string
  {
    seq(|s|, i requires 0 <= i < |s| => LowerChar(s[i]))
  }

  /** Python's `<` on str: code point by code point, a proper prefix first. */
  predicate LexLess(a: string, b: string)
    decreases |a|
  {
    if a == [] then b != []
    else if b == [] then false
    else if a[0] != b[0] then a[0] < b[0]
    else LexLess(a[1..], b[1..])
  }

  lemma {:induction false} LexLessIrreflexive(a: string)
    ensures !LexLess(a, a)
    decreases |a|
  {
    if a != [] {
      LexLessIrreflexive(a[1..]);
    }
  }

  lemma {:induction false} LexLessAsymmetric(a: string, b: string)
    requires LexLess(a, b)
    ensures !LexLess(b, a)
    decreases |a|
  {
    if a != [] && b != [] && a[0] == b[0] {
      LexLessAsymmetric(a[1..], b[1..]);
    }
  }

  lemma {:induction false} LexLessTransitive(a: string, b: string, c: string)
    requires LexLess(a, b) && LexLess(b, c)
    ensures LexLess(a, c)
    decreases |a|
  {
    if a != [] && b != [] && c != [] && a[0] == b[0] && b[0] == c[0] {
      LexLessTransitive(a[1..], b[1..], c[1..]);
    }
  }

  lemma {:induction false} LexLessTotal(a: string, b: string)
    requires a != b
    ensures LexLess(a, b) || LexLess(b, a)
    decreases |a|
  {
    if a != [] && b != [] && a[0] == b[0] {
      assert a == [a[0]] + a[1..] && b == [b[0]] + b[1..];
      LexLessTotal(a[1..], b[1..]);
    }
  }

  /** m is the smallest string of s. */
  predicate IsLeast(m: string, s: set<string>)
  {
    m in s && forall k :: k in s && k != m ==> LexLess(m, k)
  }

  lemma {:induction false} LeastExists(s: set<string>)
    requires s != {}
    ensures exists m :: IsLeast(m, s)
    decreases s
  {
    var x :| x in s;
    if s == {x} {
      assert IsLeast(x, s);
    } else {
      LeastExists(s - {x});
      var m :| IsLeast(m, s - {x});
      if LexLess(x, m) {
        forall k | k in s && k != x
          ensures LexLess(x, k)
        {
          if k != m {
            LexLessTransitive(x, m, k);
          }
        }
        assert IsLeast(x, s);
      } else {
        LexLessTotal(x, m);
        assert IsLeast(m, s);
      }
    }
  }

  lemma LeastUnique(m1: string, m2: string, s: set<string>)
    requires IsLeast(m1, s) && IsLeast(m2, s)
    ensures m1 == m2
  {
    if m1 != m2 {
      LexLessAsymmetric(m1, m2);
    }
  }

  ghost function Least(s: set<string>): (m: string)
    requires s != {}
    ensures IsLeast(m, s)
  {
    LeastExists(s);
    var m :| IsLeast(m, s);
    m
  }

  predicate StrictlySorted(ks: seq<string>)
  {
    forall i, j :: 0 <= i < j < |ks| ==> LexLess(ks[i], ks[j])
  }

  /** The value of Python's sorted() on a collection of distinct strings. */
  ghost function SortedOf(s: set<string>): seq<string>
    decreases s
  {
    if s == {} then [] else
      var m := Least(s);
      [m] + SortedOf(s - {m})
  }

  /** sorted(keys) lists every key once, in strictly increasing order. */
  lemma {:induction false} SortedOfListsKeys(s: set<string>)
    ensures StrictlySorted(SortedOf(s))
    ensures |SortedOf(s)| == |s|
    ensures forall k :: k in SortedOf(s) <==> k in s
    decreases s
  {
    if s != {} {
      var m := Least(s);
      SortedOfListsKeys(s - {m});
      var rest := SortedOf(s - {m});
      assert SortedOf(s) == [m] + rest;
      forall i, j | 0 <= i < j < |SortedOf(s)|
        ensures LexLess(SortedOf(s)[i], SortedOf(s)[j])
      {
        if i > 0 {
          assert SortedOf(s)[i] == rest[i - 1] && SortedOf(s)[j] == rest[j - 1];
        } else {
          assert rest[j - 1] in s - {m};
        }
      }
    }
  }

  /** Any strictly sorted listing of a set is SortedOf that set: the sorted
      header does not depend on how the sort is carried out. */
  lemma {:induction false} SortedListingUnique(ks: seq<string>, s: set<string>)
    requires StrictlySorted(ks)
    requires forall k :: k in ks <==> k in s
    ensures ks == SortedOf(s)
    decreases s
  {
    assert ks != [] ==> ks[0] in s;
    if s != {} {
      var m := Least(s);
      assert ks != [] by { assert m in s; }
      assert IsLeast(ks[0], s) by {
        forall k | k in s && k != ks[0]
          ensures LexLess(ks[0], k)
        {
          var j :| 0 <= j < |ks| && ks[j] == k;
        }
      }
      LeastUnique(ks[0], m, s);
      forall k
        ensures k in ks[1..] <==> k in s - {m}
      {
        if k in ks[1..] {
          var j :| 1 <= j < |ks| && ks[j] == k;
          LexLessIrreflexive(m);
        }
        if k in s - {m} {
          var j :| 0 <= j < |ks| && ks[j] == k;
          assert j != 0;
          assert ks[1..][j - 1] == k;
        }
      }
      SortedListingUnique(ks[1..], s - {m});
      assert ks == [ks[0]] + ks[1..];
    }
  }

  /** A sorted() of the given keys; selection of the least remaining key. */
  method SortKeys(keys: set<string>) returns (ks: seq<string>)
    ensures ks == SortedOf(keys)
  {
    ks := [];
    var rest := keys;
    while rest != {}
      invariant rest <= keys
      invariant ks + SortedOf(rest) == SortedOf(keys)
      decreases rest
    {
      LeastExists(rest);
      var m :| m in rest && IsLeast(m, rest);
      LeastUnique(m, Least(rest), rest);
      ks := ks + [m];
      rest := rest - {m};
    }
  }

  /** str.replace(' ', '_'). */
  function ReplaceSpaces(s: string): (r: string)
    ensures |r| == |s|
    ensures forall i :: 0 <= i < |s| ==> r[i] == (if s[i] == ' ' then '_' else s[i])
  {
    if s == [] then []
    else ReplaceSpaces(s[..|s| - 1]) + [if s[|s| - 1] == ' ' then '_' else s[|s| - 1]]
  }

  /** The name of the file a person's subordinates are exported to. */
  function CsvFileName(fullName: string): (name: string)
    ensures |name| == |fullName| + 4 && name[|fullName|..] == ".csv"
    ensures ' ' !in name
    ensures forall i :: 0 <= i < |fullName| && fullName[i] != ' ' ==> name[i] == fullName[i]
    ensures forall i :: 0 <= i < |fullName| && fullName[i] == ' ' ==> name[i] == '_'
  {
    ReplaceSpaces(fullName) + ".csv"
  }
}
