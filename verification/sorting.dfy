/** The orderings the table helpers rely on: `strcmp` on C strings, sorting a sequence by a
    byte-string key (what `qsort` is asked to do), and the removal of adjacent duplicates. */
module Sorting {
  import opened CStrings

  /** Lexicographic order on byte strings compared as unsigned chars; a proper prefix comes
      first. This is the order `strcmp` decides on the C strings it is given. */
  predicate Less(a: seq<byte>, b: seq<byte>)
    decreases |a|
  {
    if |a| == 0 then |b| > 0
    else if |b| == 0 then false
    else if a[0] != b[0] then a[0] < b[0]
    else Less(a[1..], b[1..])
  }

  lemma {:induction false} LessIrreflexive(a: seq<byte>)
    ensures !Less(a, a)
    decreases |a|
  {
    if |a| > 0 { LessIrreflexive(a[1..]); }
  }

  lemma {:induction false} LessAsymmetric(a: seq<byte>, b: seq<byte>)
    ensures !(Less(a, b) && Less(b, a))
    decreases |a|
  {
    if |a| > 0 && |b| > 0 && a[0] == b[0] { LessAsymmetric(a[1..], b[1..]); }
  }

  lemma {:induction false} LessTotal(a: seq<byte>, b: seq<byte>)
    ensures a == b || Less(a, b) || Less(b, a)
    decreases |a|
  {
    if |a| > 0 && |b| > 0 && a[0] == b[0] {
      LessTotal(a[1..], b[1..]);
      if a[1..] == b[1..] { assert a == [a[0]] + a[1..] && b == [b[0]] + b[1..]; }
    }
  }

  lemma {:induction false} LessTransitive(a: seq<byte>, b: seq<byte>, c: seq<byte>)
    requires Less(a, b) && Less(b, c)
    ensures Less(a, c)
    decreases |a|
  {
    if |a| > 0 && a[0] == b[0] && b[0] == c[0] { LessTransitive(a[1..], b[1..], c[1..]); }
  }

  /** `strcmp` reduced to its sign: -1, 0 or 1. */
  function StrCmp(a: seq<byte>, b: seq<byte>): (r: int)
    ensures r < 0 <==> Less(CStr(a), CStr(b))
    ensures r == 0 <==> CStr(a) == CStr(b)
    ensures r > 0 <==> Less(CStr(b), CStr(a))
  {
    var x, y := CStr(a), CStr(b);
    LessTotal(x, y);
    LessAsymmetric(x, y);
    LessIrreflexive(x);
    if Less(x, y) then -1 else if x == y then 0 else 1
  }

  /** Adjacent elements are in non-decreasing key order. */
  predicate SortedBy<T>(s: seq<T>, key: T -> seq<byte>) {
    forall i :: 0 < i < |s| ==> !Less(key(s[i]), key(s[i - 1]))
  }

  /** Adjacent elements are in strictly increasing key order. */
  predicate AscendingBy<T>(s: seq<T>, key: T -> seq<byte>) {
    forall i :: 0 < i < |s| ==> Less(key(s[i - 1]), key(s[i]))
  }

  /** Any two elements, not only neighbours, are in strictly increasing key order. */
  predicate StrictlyAscendingBy<T>(s: seq<T>, key: T -> seq<byte>) {
    forall i, j :: 0 <= i < j < |s| ==> Less(key(s[i]), key(s[j]))
  }

  /** `x` placed before the first element whose key is not below its own. */
  function Insert<T>(x: T, s: seq<T>, key: T -> seq<byte>): (r: seq<T>)
    ensures multiset(r) == multiset(s) + multiset{x}
    ensures |r| == |s| + 1
    ensures r[0] == x || (|s| > 0 && r[0] == s[0])
    decreases |s|
  {
    if |s| == 0 || !Less(key(s[0]), key(x)) then [x] + s
    else
      assert s == [s[0]] + s[1..];
      [s[0]] + Insert(x, s[1..], key)
  }

  lemma {:induction false} InsertSorted<T>(x: T, s: seq<T>, key: T -> seq<byte>)
    requires SortedBy(s, key)
    ensures SortedBy(Insert(x, s, key), key)
    decreases |s|
  {
    if |s| > 0 && Less(key(s[0]), key(x)) {
      var t := s[1..];
      assert SortedBy(t, key) by {
        forall i | 0 < i < |t| ensures !Less(key(t[i]), key(t[i - 1])) {
          assert t[i] == s[i + 1] && t[i - 1] == s[i];
        }
      }
      InsertSorted(x, t, key);
      var r := Insert(x, t, key);
      LessAsymmetric(key(s[0]), key(x));
      assert !Less(key(r[0]), key(s[0]));
      var q := [s[0]] + r;
      assert Insert(x, s, key) == q;
      forall i | 0 < i < |q| ensures !Less(key(q[i]), key(q[i - 1])) {
        if i > 1 { assert q[i] == r[i - 1] && q[i - 1] == r[i - 2]; }
      }
    }
  }

  /** Insertion sort by key; among equal keys the earlier element comes first. */
  function Sort<T>(s: seq<T>, key: T -> seq<byte>): (r: seq<T>)
    ensures multiset(r) == multiset(s)
    ensures |r| == |s|
    decreases |s|
  {
    if |s| == 0 then []
    else
      assert s == [s[0]] + s[1..];
      Insert(s[0], Sort(s[1..], key), key)
  }

  lemma {:induction false} SortSorted<T>(s: seq<T>, key: T -> seq<byte>)
    ensures SortedBy(Sort(s, key), key)
    decreases |s|
  {
    if |s| > 0 {
      SortSorted(s[1..], key);
      InsertSorted(s[0], Sort(s[1..], key), key);
    }
  }

  /** Sorting a list that is already in order leaves it as it is. */
  lemma {:induction false} SortOfSorted<T>(s: seq<T>, key: T -> seq<byte>)
    requires SortedBy(s, key)
    ensures Sort(s, key) == s
    decreases |s|
  {
    if |s| > 0 {
      var t := s[1..];
      assert SortedBy(t, key) by {
        forall i | 0 < i < |t| ensures !Less(key(t[i]), key(t[i - 1])) {
          assert t[i] == s[i + 1] && t[i - 1] == s[i];
        }
      }
      SortOfSorted(t, key);
      if |t| > 0 { assert t[0] == s[1]; }
      assert [s[0]] + t == s;
    }
  }

  /** No two neighbours share a key. */
  predicate NoAdjacentDuplicates<T>(s: seq<T>, key: T -> seq<byte>) {
    forall i :: 0 < i < |s| ==> key(s[i]) != key(s[i - 1])
  }

  lemma DedupeKeepsLast<T>(s: seq<T>, key: T -> seq<byte>)
    requires |s| > 1 && key(s[|s| - 1]) != key(s[|s| - 2])
    ensures Dedupe(s, key) == Dedupe(s[..|s| - 1], key) + [s[|s| - 1]]
  {
  }

  lemma NoAdjacentDuplicatesPrefix<T>(s: seq<T>, key: T -> seq<byte>)
    requires |s| > 0 && NoAdjacentDuplicates(s, key)
    ensures NoAdjacentDuplicates(s[..|s| - 1], key)
  {
    var p := s[..|s| - 1];
    forall i | 0 < i < |p| ensures key(p[i]) != key(p[i - 1]) {
      assert p[i] == s[i] && p[i - 1] == s[i - 1];
    }
  }

  /** The duplicate removal keeps a list without neighbouring duplicates as it is. */
  lemma {:induction false} DedupeOfDistinct<T>(s: seq<T>, key: T -> seq<byte>)
    requires NoAdjacentDuplicates(s, key)
    ensures Dedupe(s, key) == s
    decreases |s|
  {
    if |s| > 1 {
      var p := s[..|s| - 1];
      NoAdjacentDuplicatesPrefix(s, key);
      DedupeOfDistinct(p, key);
      DedupeKeepsLast(s, key);
      assert p + [s[|s| - 1]] == s;
    }
  }

  /** The duplicate removal and compaction of a sorted list: an element is kept when it is the
      first one or its key differs from the key of the element just before it. */
  function Dedupe<T>(s: seq<T>, key: T -> seq<byte>): (r: seq<T>)
    ensures |r| <= |s|
    ensures |s| > 0 ==> |r| > 0 && key(r[|r| - 1]) == key(s[|s| - 1])
    decreases |s|
  {
    if |s| <= 1 then s
    else
      var p := s[..|s| - 1];
      if key(s[|s| - 1]) == key(s[|s| - 2]) then Dedupe(p, key)
      else Dedupe(p, key) + [s[|s| - 1]]
  }

  /** Only elements of the input are kept. */
  lemma {:induction false} DedupeFromInput<T>(s: seq<T>, key: T -> seq<byte>)
    ensures forall j :: 0 <= j < |Dedupe(s, key)| ==> Dedupe(s, key)[j] in s
    decreases |s|
  {
    if |s| > 1 {
      var p := s[..|s| - 1];
      DedupeFromInput(p, key);
      var r, rp := Dedupe(s, key), Dedupe(p, key);
      forall j | 0 <= j < |r| ensures r[j] in s {
        if j < |rp| {
          var k :| 0 <= k < |p| && p[k] == rp[j];
          assert s[k] == p[k];
        }
      }
    }
  }

  /** Some element of `s` has key `k`. */
  predicate HasKey<T>(s: seq<T>, key: T -> seq<byte>, k: seq<byte>) {
    exists j :: 0 <= j < |s| && key(s[j]) == k
  }

  lemma HasKeyAt<T>(s: seq<T>, key: T -> seq<byte>, j: nat)
    requires j < |s|
    ensures HasKey(s, key, key(s[j]))
  {
  }

  /** A key present in a list is present after an element is appended. */
  lemma HasKeyAppend<T>(s: seq<T>, key: T -> seq<byte>, x: T, k: seq<byte>)
    requires HasKey(s, key, k)
    ensures HasKey(s + [x], key, k)
  {
    var j :| 0 <= j < |s| && key(s[j]) == k;
    assert (s + [x])[j] == s[j];
  }

  /** No key of the input is lost: each one is the key of some element kept. */
  lemma {:induction false} DedupeKeepsKeys<T>(s: seq<T>, key: T -> seq<byte>)
    ensures forall i :: 0 <= i < |s| ==> HasKey(Dedupe(s, key), key, key(s[i]))
    decreases |s|
  {
    if |s| > 1 {
      var p := s[..|s| - 1];
      var r := Dedupe(s, key);
      var rp := Dedupe(p, key);
      DedupeKeepsKeys(p, key);
      forall i | 0 <= i < |s| ensures HasKey(r, key, key(s[i])) {
        if i < |s| - 1 {
          assert s[i] == p[i];
          if key(s[|s| - 1]) != key(s[|s| - 2]) {
            HasKeyAppend(rp, key, s[|s| - 1], key(s[i]));
          }
        } else {
          HasKeyAt(r, key, |r| - 1);
        }
      }
    } else if |s| == 1 {
      HasKeyAt(s, key, 0);
    }
  }

  /** On a sorted list the elements kept are in strictly increasing key order. */
  lemma {:induction false} DedupeAscending<T>(s: seq<T>, key: T -> seq<byte>)
    requires SortedBy(s, key)
    ensures AscendingBy(Dedupe(s, key), key)
    decreases |s|
  {
    if |s| > 1 {
      var p := s[..|s| - 1];
      assert SortedBy(p, key) by {
        forall i | 0 < i < |p| ensures !Less(key(p[i]), key(p[i - 1])) {
          assert p[i] == s[i] && p[i - 1] == s[i - 1];
        }
      }
      DedupeAscending(p, key);
      var a, b := key(s[|s| - 2]), key(s[|s| - 1]);
      if b != a {
        var rp := Dedupe(p, key);
        assert key(rp[|rp| - 1]) == a;
        LessTotal(a, b);
        var r := rp + [s[|s| - 1]];
        forall i | 0 < i < |r| ensures Less(key(r[i - 1]), key(r[i])) {
          if i < |r| - 1 { assert r[i] == rp[i] && r[i - 1] == rp[i - 1]; }
        }
      }
    }
  }

  /** Strict order between neighbours is strict order between any two elements. */
  lemma {:induction false} AscendingIsStrict<T>(s: seq<T>, key: T -> seq<byte>)
    requires AscendingBy(s, key)
    ensures StrictlyAscendingBy(s, key)
    decreases |s|
  {
    if |s| > 1 {
      var p := s[..|s| - 1];
      assert AscendingBy(p, key) by {
        forall i | 0 < i < |p| ensures Less(key(p[i - 1]), key(p[i])) {
          assert p[i] == s[i] && p[i - 1] == s[i - 1];
        }
      }
      AscendingIsStrict(p, key);
      forall i, j | 0 <= i < j < |s| ensures Less(key(s[i]), key(s[j])) {
        if j < |s| - 1 {
          assert s[i] == p[i] && s[j] == p[j];
        } else if i < j - 1 {
          assert s[i] == p[i] && s[j - 1] == p[j - 1];
          LessTransitive(key(s[i]), key(s[j - 1]), key(s[j]));
        }
      }
    }
  }

  /** Sort, then drop the duplicates: the post-processing of a scan. */
  function SortUnique<T>(s: seq<T>, key: T -> seq<byte>): (r: seq<T>)
  {
    Dedupe(Sort(s, key), key)
  }

  /** The result of the post-processing is in strictly increasing key order, holds only
      elements of the input, and has an element for every key of the input. */
  lemma SortUniqueSpec<T>(s: seq<T>, key: T -> seq<byte>)
    ensures StrictlyAscendingBy(SortUnique(s, key), key)
    ensures forall j :: 0 <= j < |SortUnique(s, key)| ==> SortUnique(s, key)[j] in s
    ensures forall i :: 0 <= i < |s| ==> HasKey(SortUnique(s, key), key, key(s[i]))
  {
    var t := Sort(s, key);
    var r := SortUnique(s, key);
    SortSorted(s, key);
    DedupeAscending(t, key);
    AscendingIsStrict(r, key);
    DedupeFromInput(t, key);
    forall j | 0 <= j < |r| ensures r[j] in s {
      assert r[j] in t;
      assert r[j] in multiset(t);
    }
    DedupeKeepsKeys(t, key);
    forall i | 0 <= i < |s| ensures HasKey(r, key, key(s[i])) {
      assert s[i] in multiset(t);
      var k :| 0 <= k < |t| && t[k] == s[i];
    }
  }
}
