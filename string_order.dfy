/** Plain lexicographic order on strings (character by character, a proper
    prefix first). It stands in for the title comparator
    `a.title.localeCompare(b.title)`; the two agree on the ASCII titles the
    books slice uses. */
module StringOrder {

  /** The length of the longest common prefix of `a` and `b`. */
  function CommonPrefix(a: string, b: string): (k: nat)
    ensures k <= |a| && k <= |b| && a[..k] == b[..k]
    ensures k < |a| && k < |b| ==> a[k] != b[k]
  {
    if a == [] || b == [] || a[0] != b[0] then 0
    else
      var k := 1 + CommonPrefix(a[1..], b[1..]);
      assert a[..k] == [a[0]] + a[1..][..k - 1];
      assert b[..k] == [b[0]] + b[1..][..k - 1];
      k
  }

  /** `a` sorts no later than `b`. */
  predicate LessEq(a: string, b: string) {
    a == [] || (b != [] && (a[0] < b[0] || (a[0] == b[0] && LessEq(a[1..], b[1..]))))
  }

  /** `LessEq` is the lexicographic order: `a` is a prefix of `b`, or at the
      first position where they differ `a` has the smaller character. */
  lemma {:induction false} LessEqIsLexicographic(a: string, b: string)
    ensures LessEq(a, b) <==>
              var k := CommonPrefix(a, b);
              k == |a| || (k < |b| && a[k] < b[k])
  {
    if a != [] && b != [] && a[0] == b[0] {
      LessEqIsLexicographic(a[1..], b[1..]);
    }
  }

  lemma {:induction false} Reflexive(a: string)
    ensures LessEq(a, a)
  {
    if a != [] {
      Reflexive(a[1..]);
    }
  }

  lemma {:induction false} Total(a: string, b: string)
    ensures LessEq(a, b) || LessEq(b, a)
  {
    if a != [] && b != [] && a[0] == b[0] {
      Total(a[1..], b[1..]);
    }
  }

  lemma {:induction false} Antisymmetric(a: string, b: string)
    requires LessEq(a, b) && LessEq(b, a)
    ensures a == b
  {
    if a != [] && b != [] {
      Antisymmetric(a[1..], b[1..]);
      assert a == [a[0]] + a[1..];
      assert b == [b[0]] + b[1..];
    }
  }

  lemma {:induction false} Transitive(a: string, b: string, c: string)
    requires LessEq(a, b) && LessEq(b, c)
    ensures LessEq(a, c)
  {
    if a != [] && b != [] && c != [] && a[0] == b[0] && b[0] == c[0] {
      Transitive(a[1..], b[1..], c[1..]);
    }
  }
}
