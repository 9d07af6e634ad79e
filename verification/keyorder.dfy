/**
 Sequences kept in ascending order of a string key, the way the flashcard
 store is kept by normalised topic: the search for the first element whose key
 is at or after a given one, insertion at that position, the scan of one key's
 run, and removal. The key function is a parameter, so these facts hold
 whatever the key is computed from.
 */
module KeyOrder {
  import opened Text

  predicate SortedBy<T>(s: seq<T>, key: T -> string) {
    forall i, j :: 0 <= i < j < |s| ==> LexLe(key(s[i]), key(s[j]))
  }

  /** The first position whose element's key is at or after `k` (the `next(...)` search). */
  function Search<T>(s: seq<T>, key: T -> string, k: string): (n: nat)
    ensures n <= |s|
    ensures forall j :: 0 <= j < n ==> !LexLe(k, key(s[j]))
    ensures n < |s| ==> LexLe(k, key(s[n]))
    decreases |s|
  {
    if s == [] || LexLe(k, key(s[0])) then 0 else 1 + Search(s[1..], key, k)
  }

  /** `list.insert(n, x)`. */
  function InsertAt<T>(s: seq<T>, n: nat, x: T): (r: seq<T>)
    requires n <= |s|
    ensures |r| == |s| + 1
  {
    s[..n] + [x] + s[n..]
  }

  /** The element lands at `n`; the ones before it stay, the ones from `n` on move up by one. */
  lemma InsertAtPlacement<T>(s: seq<T>, n: nat, x: T)
    requires n <= |s|
    ensures var r := InsertAt(s, n, x);
      && r[n] == x
      && (forall j :: 0 <= j < n ==> r[j] == s[j])
      && (forall j :: n <= j < |s| ==> r[j + 1] == s[j])
  {
    var r := InsertAt(s, n, x);
    forall j | n <= j < |s|
      ensures r[j + 1] == s[j]
    {
      assert r[j + 1] == s[n..][j - n];
    }
  }

  /** Inserting adds exactly the one element. */
  lemma InsertAtMultiset<T>(s: seq<T>, n: nat, x: T)
    requires n <= |s|
    ensures multiset(InsertAt(s, n, x)) == multiset(s) + multiset{x}
  {
    assert s == s[..n] + s[n..];
  }

  /** Inserting at the search position of the element's own key keeps the order. */
  lemma InsertKeepsSorted<T>(s: seq<T>, key: T -> string, x: T)
    requires SortedBy(s, key)
    ensures SortedBy(InsertAt(s, Search(s, key, key(x)), x), key)
  {
    var n := Search(s, key, key(x));
    var r := InsertAt(s, n, x);
    InsertAtPlacement(s, n, x);
    forall i, j | 0 <= i < j < |r|
      ensures LexLe(key(r[i]), key(r[j]))
    {
      if j < n {
        assert r[i] == s[i] && r[j] == s[j];
      } else if j == n {
        assert r[i] == s[i];
        LexLeTotal(key(x), key(s[i]));
      } else if i < n {
        assert r[i] == s[i] && r[j] == s[j - 1];
        LexLeTotal(key(x), key(s[i]));
        LexLeTransitive(key(s[i]), key(x), key(s[n]));
        if n < j - 1 {
          LexLeTransitive(key(s[i]), key(s[n]), key(s[j - 1]));
        }
      } else if i == n {
        assert r[j] == s[j - 1];
        if n < j - 1 {
          LexLeTransitive(key(x), key(s[n]), key(s[j - 1]));
        }
      } else {
        assert r[i] == s[i - 1] && r[j] == s[j - 1];
      }
    }
  }

  /** `del s[n]`: removing any one element keeps the order. */
  lemma RemoveKeepsSorted<T>(s: seq<T>, key: T -> string, n: nat)
    requires n < |s| && SortedBy(s, key)
    ensures SortedBy(s[..n] + s[n + 1..], key)
  {
    var r := s[..n] + s[n + 1..];
    forall i, j | 0 <= i < j < |r|
      ensures LexLe(key(r[i]), key(r[j]))
    {
      var i0 := if i < n then i else i + 1;
      var j0 := if j < n then j else j + 1;
      assert r[i] == s[i0] && r[j] == s[j0];
    }
  }

  /** The elements whose key is `k`, in order. */
  function Select<T>(s: seq<T>, key: T -> string, k: string): (r: seq<T>)
    ensures |r| <= |s|
    ensures forall i :: 0 <= i < |r| ==> key(r[i]) == k
    decreases |s|
  {
    if s == [] then []
    else if key(s[0]) == k then [s[0]] + Select(s[1..], key, k)
    else Select(s[1..], key, k)
  }

  /** The selection holds exactly the elements with the key. */
  lemma {:induction false} SelectMembers<T>(s: seq<T>, key: T -> string, k: string, x: T)
    ensures x in Select(s, key, k) <==> x in s && key(x) == k
    decreases |s|
  {
    if s != [] {
      SelectMembers(s[1..], key, k, x);
      assert x in s <==> x == s[0] || x in s[1..];
    }
  }

  lemma {:induction false} SelectNone<T>(s: seq<T>, key: T -> string, k: string)
    requires forall i :: 0 <= i < |s| ==> key(s[i]) != k
    ensures Select(s, key, k) == []
    decreases |s|
  {
    if s != [] {
      SelectNone(s[1..], key, k);
    }
  }

  lemma {:induction false} SelectAppend<T>(a: seq<T>, b: seq<T>, key: T -> string, k: string)
    ensures Select(a + b, key, k) == Select(a, key, k) + Select(b, key, k)
    decreases |a|
  {
    if a == [] {
      assert a + b == b;
    } else {
      assert (a + b)[1..] == a[1..] + b;
      SelectAppend(a[1..], b, key, k);
    }
  }

  /** The scan from `start`: take elements while their key is `k`, stop at the first that differs. */
  function Run<T>(s: seq<T>, key: T -> string, start: nat, k: string): (r: seq<T>)
    requires start <= |s|
    ensures |r| <= |s| - start
    ensures forall i :: 0 <= i < |r| ==> key(r[i]) == k
    decreases |s| - start
  {
    if start == |s| || key(s[start]) != k then [] else [s[start]] + Run(s, key, start + 1, k)
  }

  /** On an ordered sequence, a scan from a position at or past the key collects all of that key's elements from there on. */
  lemma {:induction false} RunFrom<T>(s: seq<T>, key: T -> string, start: nat, k: string)
    requires SortedBy(s, key) && start <= |s|
    requires start < |s| ==> LexLe(k, key(s[start]))
    ensures Run(s, key, start, k) == Select(s[start..], key, k)
    decreases |s| - start
  {
    if start == |s| {
    } else if key(s[start]) == k {
      assert s[start..][1..] == s[start + 1..];
      RunFrom(s, key, start + 1, k);
    } else {
      forall i | start <= i < |s|
        ensures key(s[i]) != k
      {
        if i > start && key(s[i]) == k {
          LexLeAntisymmetric(k, key(s[start]));
        }
      }
      SelectNone(s[start..], key, k);
    }
  }

  /** On an ordered sequence, search-then-scan finds exactly the elements with the key, in order. */
  lemma RunIsSelect<T>(s: seq<T>, key: T -> string, k: string)
    requires SortedBy(s, key)
    ensures Run(s, key, Search(s, key, k), k) == Select(s, key, k)
  {
    var n := Search(s, key, k);
    var before := s[..n];
    assert s == before + s[n..];
    LexLeReflexive(k);
    RunFrom(s, key, n, k);
    forall i | 0 <= i < |before|
      ensures key(before[i]) != k
    {
      assert before[i] == s[i];
      assert !LexLe(k, key(s[i]));
    }
    SelectNone(before, key, k);
    SelectAppend(before, s[n..], key, k);
  }
}
