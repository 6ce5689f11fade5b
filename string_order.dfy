/**
 * Go's ordering of strings (`<`, `strings.Compare`): byte by byte, a proper prefix first.
 * `encoding/json` writes map keys in this order.
 */
module StringOrder {
  import opened GoStrings

  /** Go's `a <= b` on strings: byte-wise, a proper prefix first. */
  predicate ByteLe(a: Bytes, b: Bytes)
    decreases |a|
  {
    a == [] || (b != [] && (a[0] < b[0] || (a[0] == b[0] && ByteLe(a[1..], b[1..]))))
  }

  lemma {:induction false} ByteLeAntisymmetric(a: Bytes, b: Bytes)
    requires ByteLe(a, b) && ByteLe(b, a)
    ensures a == b
    decreases |a|
  {
    if a != [] && b != [] {
      ByteLeAntisymmetric(a[1..], b[1..]);
      assert a == [a[0]] + a[1..] && b == [b[0]] + b[1..];
    }
  }

  lemma {:induction false} ByteLeTotal(a: Bytes, b: Bytes)
    ensures ByteLe(a, b) || ByteLe(b, a)
    decreases |a|
  {
    if a != [] && b != [] && a[0] == b[0] {
      ByteLeTotal(a[1..], b[1..]);
    }
  }

  lemma {:induction false} ByteLeTransitive(a: Bytes, b: Bytes, c: Bytes)
    requires ByteLe(a, b) && ByteLe(b, c)
    ensures ByteLe(a, c)
    decreases |a|
  {
    if a != [] && b != [] && c != [] && a[0] == b[0] && b[0] == c[0] {
      ByteLeTransitive(a[1..], b[1..], c[1..]);
    }
  }

  /** `k` is the last of `s` in string order. */
  predicate IsGreatest(s: set<Bytes>, k: Bytes) {
    k in s && forall j :: j in s ==> ByteLe(j, k)
  }

  lemma {:induction false} ByteLeReflexive(a: Bytes)
    ensures ByteLe(a, a)
    decreases |a|
  {
    if a != [] {
      ByteLeReflexive(a[1..]);
    }
  }

  lemma {:induction false} GreatestExists(s: set<Bytes>) returns (k: Bytes)
    requires s != {}
    ensures IsGreatest(s, k)
    decreases |s|
  {
    var x :| x in s;
    ByteLeReflexive(x);
    if s == {x} {
      k := x;
    } else {
      var k' := GreatestExists(s - {x});
      ByteLeTotal(x, k');
      if ByteLe(x, k') {
        k := k';
      } else {
        k := x;
        forall j | j in s
          ensures ByteLe(j, k)
        {
          if j != x {
            ByteLeTransitive(j, k', x);
          }
        }
      }
    }
  }

  lemma HasGreatest(s: set<Bytes>)
    requires s != {}
    ensures exists k :: IsGreatest(s, k)
  {
    var k := GreatestExists(s);
  }

  lemma GreatestUnique(s: set<Bytes>)
    ensures forall k1, k2 :: IsGreatest(s, k1) && IsGreatest(s, k2) ==> k1 == k2
  {
    forall k1, k2 | IsGreatest(s, k1) && IsGreatest(s, k2) ensures k1 == k2 {
      ByteLeAntisymmetric(k1, k2);
    }
  }

  /** The last string of a non-empty finite set, in string order. */
  function Greatest(s: set<Bytes>): (k: Bytes)
    requires s != {}
    ensures IsGreatest(s, k)
  {
    HasGreatest(s);
    GreatestUnique(s);
    var k :| IsGreatest(s, k);
    k
  }
}
