/** Lexicographic order on byte strings, in which map keys are walked so that every
    validator visits them alike. Hex strings sort like the bytes they stand for. */
module ByteOrder {
  import opened Prelude

  predicate LexLe(a: bytes, b: bytes) {
    if a == [] then true
    else if b == [] then false
    else if a[0] != b[0] then a[0] < b[0]
    else LexLe(a[1..], b[1..])
  }

  lemma {:induction false} LexTotal(a: bytes, b: bytes)
    ensures LexLe(a, b) || LexLe(b, a)
    ensures LexLe(a, b) && LexLe(b, a) ==> a == b
  {
    if a != [] && b != [] && a[0] == b[0] {
      LexTotal(a[1..], b[1..]);
      assert a == [a[0]] + a[1..] && b == [b[0]] + b[1..];
    }
  }

  lemma {:induction false} LexTransitive(a: bytes, b: bytes, c: bytes)
    requires LexLe(a, b) && LexLe(b, c)
    ensures LexLe(a, c)
  {
    if a != [] && a[0] == b[0] == c[0] {
      LexTransitive(a[1..], b[1..], c[1..]);
    }
  }

  ghost predicate IsLeast(k: bytes, s: set<bytes>) {
    k in s && forall j :: j in s ==> LexLe(k, j)
  }

  lemma {:induction false} LeastExists(s: set<bytes>)
    requires s != {}
    ensures exists k :: IsLeast(k, s)
  {
    var x :| x in s;
    LexTotal(x, x);
    if s == {x} {
      assert IsLeast(x, s);
    } else {
      var rest := s - {x};
      assert s == rest + {x};
      LeastExists(rest);
      var y :| IsLeast(y, rest);
      LexTotal(x, y);
      if LexLe(x, y) {
        forall j | j in s ensures LexLe(x, j) {
          if j != x { LexTransitive(x, y, j); }
        }
        assert IsLeast(x, s);
      } else {
        assert IsLeast(y, s);
      }
    }
  }

  /** The keys in increasing order, each once. */
  ghost predicate Ascending(keys: seq<bytes>) {
    forall i, j :: 0 <= i < j < |keys| ==> keys[i] != keys[j] && LexLe(keys[i], keys[j])
  }

  ghost predicate Enumerates(keys: seq<bytes>, s: set<bytes>) {
    Ascending(keys) && forall k :: k in keys <==> k in s
  }

  method SortKeys(s: set<bytes>) returns (keys: seq<bytes>)
    ensures Enumerates(keys, s)
  {
    keys := [];
    var rest := s;
    while rest != {}
      invariant rest <= s
      invariant Enumerates(keys, s - rest)
      invariant forall i, j :: 0 <= i < |keys| && j in rest ==> LexLe(keys[i], j)
      decreases rest
    {
      LeastExists(rest);
      var least :| least in rest && forall j :: j in rest ==> LexLe(least, j);
      keys := keys + [least];
      rest := rest - {least};
    }
  }

  lemma EnumeratesTail(a: seq<bytes>, s: set<bytes>)
    requires a != [] && Enumerates(a, s)
    ensures Enumerates(a[1..], s - {a[0]})
  {
    forall k ensures k in a[1..] <==> k in s - {a[0]} {
      if k in a && k != a[0] {
        var i :| 0 <= i < |a| && a[i] == k;
        assert a[1..][i - 1] == k;
      }
    }
  }

  lemma LeastComesFirst(a: seq<bytes>, s: set<bytes>)
    requires a != [] && Enumerates(a, s)
    ensures IsLeast(a[0], s)
  {
    assert a[0] in a;
    forall j | j in s ensures LexLe(a[0], j) {
      var i :| 0 <= i < |a| && a[i] == j;
      LexTotal(a[0], j);
    }
  }

  lemma HasElement(a: seq<bytes>)
    ensures a != [] ==> exists k :: k in a
  {
    if a != [] {
      assert a[0] in a;
    }
  }

  /** There is only one such listing, so the walk is the same for everybody. */
  lemma {:induction false} EnumerationIsUnique(a: seq<bytes>, b: seq<bytes>, s: set<bytes>)
    requires Enumerates(a, s) && Enumerates(b, s)
    ensures a == b
  {
    if s == {} {
      HasElement(a);
      HasElement(b);
    } else {
      var x :| x in s;
      assert x in a && x in b;
      LeastComesFirst(a, s);
      LeastComesFirst(b, s);
      LexTotal(a[0], b[0]);
      EnumeratesTail(a, s);
      EnumeratesTail(b, s);
      EnumerationIsUnique(a[1..], b[1..], s - {a[0]});
      assert a == [a[0]] + a[1..] && b == [b[0]] + b[1..];
    }
  }

  /** They differ first at i, where a is smaller. */
  predicate SmallerAt(a: bytes, b: bytes, i: nat) {
    i < |a| && i < |b| && a[..i] == b[..i] && a[i] < b[i]
  }

  lemma SmallerBehindHead(a: bytes, b: bytes, i: nat)
    requires a != [] && b != [] && a[0] == b[0]
    ensures SmallerAt(a[1..], b[1..], i) <==> SmallerAt(a, b, i + 1)
    ensures !SmallerAt(a, b, 0)
  {
    if i < |a| - 1 && i < |b| - 1 {
      assert a[..i + 1] == [a[0]] + a[1..][..i] && b[..i + 1] == [b[0]] + b[1..][..i];
      assert a[..i + 1][1..] == a[1..][..i] && b[..i + 1][1..] == b[1..][..i];
    }
  }

  lemma SmallerNeedsHead(a: bytes, b: bytes, i: nat)
    requires SmallerAt(a, b, i)
    ensures a[0] <= b[0] && (a[0] == b[0] ==> i > 0)
  {
    if i > 0 { assert a[..i][0] == a[0] && b[..i][0] == b[0]; }
  }

  /** The order is the lexicographic one: a prefix comes first, otherwise the first byte in which
      they differ decides. */
  lemma {:induction false} LexMeans(a: bytes, b: bytes)
    ensures LexLe(a, b) <==> a <= b || exists i: nat :: SmallerAt(a, b, i)
  {
    if a != [] && b != [] {
      if exists i: nat :: SmallerAt(a, b, i) {
        var i: nat :| SmallerAt(a, b, i);
        SmallerNeedsHead(a, b, i);
        if a[0] == b[0] { SmallerBehindHead(a, b, i - 1); }
      }
      if a[0] == b[0] {
        LexMeans(a[1..], b[1..]);
        assert a == [a[0]] + a[1..] && b == [b[0]] + b[1..];
        if exists i: nat :: SmallerAt(a[1..], b[1..], i) {
          var i: nat :| SmallerAt(a[1..], b[1..], i);
          SmallerBehindHead(a, b, i);
        }
      } else {
        assert a[0] < b[0] ==> SmallerAt(a, b, 0);
      }
    }
  }
}
