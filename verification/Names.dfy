/**
  Domain names and byte strings, with the orders the tools compare them in.

  A name is the sequence of its labels from the root down, without the root label and
  already lower-cased.  So "is a subdomain of" is "has as a prefix", and the canonical order of
  section 6.1 of RFC 4034 is the lexicographic order of the label sequences, labels themselves
  being compared as byte strings.
 */
module Names {

  type Byte = x: int | 0 <= x < 256
  type Bytes = seq<Byte>
  type Name = seq<Bytes>

  datatype Option<+T> = None | Some(value: T)

  const WILDCARD: Bytes := [42]

  /** How many leading elements two sequences share: the label count of `dns_name_fullcompare`. */
  function Common<T(==)>(a: seq<T>, b: seq<T>): (k: nat)
    ensures k <= |a| && k <= |b|
    ensures a[..k] == b[..k]
    ensures k < |a| && k < |b| ==> a[k] != b[k]
  {
    if a == [] || b == [] || a[0] != b[0] then
      0
    else
      var k := Common(a[1..], b[1..]);
      assert a[..k + 1] == [a[0]] + a[1..][..k] == [b[0]] + b[1..][..k] == b[..k + 1];
      k + 1
  }

  lemma PrefixesAgree<T>(a: seq<T>, b: seq<T>, k: nat)
    requires k <= |a| && k <= |b| && a[..k] == b[..k]
    ensures forall i :: 0 <= i < k ==> a[i] == b[i]
  {
    forall i | 0 <= i < k ensures a[i] == b[i] {
      assert a[i] == a[..k][i] == b[..k][i] == b[i];
    }
  }

  lemma CommonUnique<T>(a: seq<T>, b: seq<T>, k: nat)
    requires k <= |a| && k <= |b| && a[..k] == b[..k]
    requires k == |a| || k == |b| || a[k] != b[k]
    ensures Common(a, b) == k
  {
    PrefixesAgree(a, b, k);
    PrefixesAgree(a, b, Common(a, b));
  }

  predicate LexLess<T(==)>(lt: (T, T) -> bool, a: seq<T>, b: seq<T>) {
    var k := Common(a, b);
    k < |b| && (k == |a| || lt(a[k], b[k]))
  }

  ghost predicate StrictTotal<T(!new)>(lt: (T, T) -> bool) {
    && (forall x :: !lt(x, x))
    && (forall x, y :: lt(x, y) || x == y || lt(y, x))
    && (forall x, y, z :: lt(x, y) && lt(y, z) ==> lt(x, z))
  }

  lemma LexTransitive<T(!new)>(lt: (T, T) -> bool, a: seq<T>, b: seq<T>, c: seq<T>)
    requires StrictTotal(lt) && LexLess(lt, a, b) && LexLess(lt, b, c)
    ensures LexLess(lt, a, c)
  {
    var j, k := Common(a, b), Common(b, c);
    var m := if j < k then j else k;
    assert a[..m] == a[..j][..m] == b[..j][..m] == b[..k][..m] == c[..k][..m] == c[..m];
    if j < k {
      assert b[j] == b[..k][j] == c[..k][j] == c[j];
    }
    CommonUnique(a, c, m);
  }

  lemma LexTotal<T(!new)>(lt: (T, T) -> bool, a: seq<T>, b: seq<T>)
    requires StrictTotal(lt)
    ensures !LexLess(lt, a, a)
    ensures LexLess(lt, a, b) || a == b || LexLess(lt, b, a)
  {
    CommonUnique(a, a, |a|);
    var k := Common(a, b);
    CommonUnique(b, a, k);
    if k == |a| == |b| {
      assert a == a[..k] == b[..k] == b;
    }
  }

  lemma LexIsStrictTotal<T(!new)>(lt: (T, T) -> bool, f: (seq<T>, seq<T>) -> bool)
    requires StrictTotal(lt)
    requires forall a, b :: f(a, b) == LexLess(lt, a, b)
    ensures StrictTotal(f)
  {
    forall a { LexTotal(lt, a, a); }
    forall a, b ensures f(a, b) || a == b || f(b, a) { LexTotal(lt, a, b); }
    forall a, b, c | f(a, b) && f(b, c) ensures f(a, c) { LexTransitive(lt, a, b, c); }
  }

  predicate ByteLess(x: Byte, y: Byte) { x < y }

  /** `memcmp` order. */
  predicate BytesLess(a: Bytes, b: Bytes) { LexLess(ByteLess, a, b) }

  /** Canonical name order. */
  predicate NameLess(a: Name, b: Name) { LexLess(BytesLess, a, b) }

  lemma BytesOrder()
    ensures StrictTotal(BytesLess)
  {
    LexIsStrictTotal(ByteLess, BytesLess);
  }

  lemma BytesAsymmetric(a: Bytes, b: Bytes)
    requires BytesLess(a, b)
    ensures !BytesLess(b, a)
  {
    hide BytesLess;
    BytesOrder();
  }

  lemma BytesNotLess(a: Bytes, b: Bytes, c: Bytes)
    requires !BytesLess(b, a) && !BytesLess(c, b)
    ensures !BytesLess(c, a)
  {
    hide BytesLess;
    BytesOrder();
  }

  lemma NameOrder()
    ensures StrictTotal(NameLess)
  {
    BytesOrder();
    LexIsStrictTotal(BytesLess, NameLess);
  }

  /** `dns_name_issubdomain`: equal names count. */
  predicate IsSubdomain(name: Name, ancestor: Name) { ancestor <= name }

  lemma PrefixIsLess(a: Name, b: Name)
    requires a < b
    ensures NameLess(a, b)
  {
    CommonUnique(a, b, |a|);
  }

  /** The sequences with a given prefix are an interval of a lexicographic order. */
  lemma {:induction false} PrefixInterval<T(!new)>(lt: (T, T) -> bool, d: seq<T>, x: seq<T>, y: seq<T>, z: seq<T>)
    requires StrictTotal(lt)
    requires d <= x && d <= z
    requires x == y || LexLess(lt, x, y)
    requires y == z || LexLess(lt, y, z)
    ensures d <= y
  {
    if x != y && y != z {
      var j, k := Common(x, y), Common(y, z);
      PrefixesAgree(x, y, j);
      PrefixesAgree(y, z, k);
      assert j >= |d| || k >= |d|;
    }
  }

  /** The names at or below `d` are an interval of the canonical order. */
  lemma {:induction false} SubtreeIsInterval(d: Name, x: Name, y: Name, z: Name)
    requires d <= x && d <= z
    requires x == y || NameLess(x, y)
    requires y == z || NameLess(y, z)
    ensures d <= y
  {
    BytesOrder();
    PrefixInterval(BytesLess, d, x, y, z);
  }

  /** A prefix of `b` longer than what `a` and `b` share lies strictly between the two. */
  lemma SpanPrefixBetween(a: Name, b: Name, n: nat)
    requires NameLess(a, b) && Common(a, b) < n < |b|
    ensures NameLess(a, b[..n]) && NameLess(b[..n], b)
  {
    var k := Common(a, b);
    assert b[..n][..k] == b[..k];
    CommonUnique(a, b[..n], k);
    PrefixIsLess(b[..n], b);
  }
}
