/** Key order of the contract's storage maps. A `range` over a map with string
    keys visits entries in ascending order of the keys' bytes. Dafny's `char`
    is a Unicode scalar value, and UTF-8 byte order agrees with scalar-value
    order, so the byte order is the lexicographic order on `string` below.
    This is not numeric order: "10" comes before "2". */
module Order {

  /** `a` sorts strictly before `b`: a proper prefix, or smaller at the first difference. */
  predicate LexLess(a: string, b: string)
    decreases |a|
  {
    if |b| == 0 then false
    else if |a| == 0 then true
    else if a[0] != b[0] then a[0] < b[0]
    else LexLess(a[1..], b[1..])
  }

  lemma {:induction false} LexIrreflexive(a: string)
    ensures !LexLess(a, a)
    decreases |a|
  {
    if |a| > 0 {
      LexIrreflexive(a[1..]);
    }
  }

  lemma {:induction false} LexTransitive(a: string, b: string, c: string)
    requires LexLess(a, b) && LexLess(b, c)
    ensures LexLess(a, c)
    decreases |a|
  {
    if |a| > 0 && a[0] == b[0] && b[0] == c[0] {
      LexTransitive(a[1..], b[1..], c[1..]);
    }
  }

  lemma {:induction false} LexTotal(a: string, b: string)
    requires a != b
    ensures LexLess(a, b) || LexLess(b, a)
    decreases |a|
  {
    if |a| > 0 && |b| > 0 && a[0] == b[0] {
      assert a == [a[0]] + a[1..];
      assert b == [b[0]] + b[1..];
      LexTotal(a[1..], b[1..]);
    }
  }

  lemma {:induction false} LexAsymmetric(a: string, b: string)
    requires LexLess(a, b)
    ensures !LexLess(b, a)
  {
    if LexLess(b, a) {
      LexTransitive(a, b, a);
      LexIrreflexive(a);
    }
  }

  /** Strictly ascending, hence also free of duplicates. */
  predicate Ascending(ks: seq<string>) {
    forall i, j :: 0 <= i < j < |ks| ==> LexLess(ks[i], ks[j])
  }

  /** `ks` lists the keys of `m`, each once, in ascending order. */
  ghost predicate AscendingListing<V>(m: map<string, V>, ks: seq<string>) {
    Ascending(ks) && forall k :: k in ks <==> k in m
  }

  /** `vs` are the values of `m` in ascending order of their keys, as a
      full ascending `range` over `m` yields them. */
  ghost predicate ListedInKeyOrder<V>(m: map<string, V>, vs: seq<V>) {
    exists ks :: AscendingListing(m, ks) && |vs| == |ks|
      && forall i :: 0 <= i < |ks| ==> vs[i] == m[ks[i]]
  }

  lemma AscendingCons(h: string, t: seq<string>)
    requires Ascending(t)
    requires forall x :: x in t ==> LexLess(h, x)
    ensures Ascending([h] + t)
  {
  }

  /** Places `k` in an ascending sequence that does not hold it yet. */
  function Insert(ks: seq<string>, k: string): (r: seq<string>)
    requires Ascending(ks)
    requires k !in ks
    ensures Ascending(r)
    ensures forall x :: x in r <==> x == k || x in ks
    ensures |r| == |ks| + 1
  {
    if |ks| == 0 then [k]
    else if LexLess(k, ks[0]) then
      assert forall x :: x in ks ==> LexLess(k, x) by {
        forall x | x in ks
          ensures LexLess(k, x)
        {
          var j :| 0 <= j < |ks| && ks[j] == x;
          if j > 0 {
            LexTransitive(k, ks[0], ks[j]);
          }
        }
      }
      AscendingCons(k, ks);
      [k] + ks
    else
      var t := Insert(ks[1..], k);
      assert forall x :: x in t ==> LexLess(ks[0], x) by {
        forall x | x in t
          ensures LexLess(ks[0], x)
        {
          if x == k {
            LexTotal(k, ks[0]);
          } else {
            var j :| 1 <= j < |ks| && ks[j] == x;
          }
        }
      }
      AscendingCons(ks[0], t);
      assert ks == [ks[0]] + ks[1..];
      [ks[0]] + t
  }

  /** The keys of `m` in ascending order. */
  method SortedKeys<V>(m: map<string, V>) returns (ks: seq<string>)
    ensures AscendingListing(m, ks)
  {
    ks := [];
    var rest := m.Keys;
    while rest != {}
      invariant Ascending(ks)
      invariant forall k :: k in m <==> k in ks || k in rest
      invariant forall k :: k in rest ==> k !in ks
      decreases |rest|
    {
      var k :| k in rest;
      ks := Insert(ks, k);
      rest := rest - {k};
    }
  }

  lemma HeadListed(b: seq<string>)
    ensures |b| > 0 ==> b[0] in b
  {
  }

  lemma NothingListedIsEmpty(b: seq<string>)
    requires forall k :: k !in b
    ensures b == []
  {
    HeadListed(b);
  }

  /** There is only one ascending listing of a set of keys. */
  lemma {:induction false} ListingUnique(a: seq<string>, b: seq<string>)
    requires Ascending(a) && Ascending(b)
    requires forall k :: k in a <==> k in b
    ensures a == b
    decreases |a|
  {
    if |a| == 0 {
      NothingListedIsEmpty(b);
    } else {
      assert a[0] in b;
      assert |b| > 0;
      if a[0] != b[0] {
        var i :| 0 <= i < |b| && b[i] == a[0];
        assert b[0] in a;
        var j :| 0 <= j < |a| && a[j] == b[0];
        assert LexLess(b[0], a[0]);
        assert LexLess(a[0], b[0]);
        LexAsymmetric(a[0], b[0]);
        assert false;
      }
      forall k
        ensures k in a[1..] <==> k in b[1..]
      {
        if k in a[1..] {
          var i :| 1 <= i < |a| && a[i] == k;
          LexIrreflexive(k);
          assert k != a[0];
          assert k in b;
        }
        if k in b[1..] {
          var i :| 1 <= i < |b| && b[i] == k;
          LexIrreflexive(k);
          assert k != b[0];
          assert k in a;
        }
      }
      ListingUnique(a[1..], b[1..]);
      assert a == [a[0]] + a[1..];
      assert b == [b[0]] + b[1..];
    }
  }

  /** An ascending sequence holds as many keys as its set of keys. */
  lemma {:induction false} AscendingCard(ks: seq<string>)
    requires Ascending(ks)
    ensures |set k | k in ks| == |ks|
    decreases |ks|
  {
    if |ks| > 0 {
      var t := ks[1..];
      AscendingCard(t);
      assert (set k | k in ks) == {ks[0]} + (set k | k in t) by {
        assert ks == [ks[0]] + t;
      }
      assert ks[0] !in t by {
        forall j | 0 <= j < |t|
          ensures t[j] != ks[0]
        {
          assert LexLess(ks[0], ks[j + 1]);
          LexIrreflexive(ks[0]);
        }
      }
    }
  }

  /** A full ascending range over `m`: its values in key order, one per key. */
  method Range<V>(m: map<string, V>) returns (vs: seq<V>)
    ensures |vs| == |m|
    ensures ListedInKeyOrder(m, vs)
  {
    var ks := SortedKeys(m);
    vs := seq(|ks|, i requires 0 <= i < |ks| => m[ks[i]]);
    AscendingCard(ks);
    assert (set k | k in ks) == m.Keys;
    assert AscendingListing(m, ks);
  }

  /** Listing is deterministic: two listings of the same map agree. */
  lemma ListingDeterministic<V>(m: map<string, V>, vs: seq<V>, ws: seq<V>)
    requires ListedInKeyOrder(m, vs) && ListedInKeyOrder(m, ws)
    ensures vs == ws
  {
    var ks :| AscendingListing(m, ks) && |vs| == |ks|
      && forall i :: 0 <= i < |ks| ==> vs[i] == m[ks[i]];
    var ls :| AscendingListing(m, ls) && |ws| == |ls|
      && forall i :: 0 <= i < |ls| ==> ws[i] == m[ls[i]];
    ListingUnique(ks, ls);
  }

  /** Ascending key order is not numeric order. */
  lemma TenSortsBeforeTwo()
    ensures LexLess("10", "2")
    ensures !LexLess("2", "10")
  {
  }
}
