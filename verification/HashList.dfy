/**
  `hashlist` (bin/dnssec/dnssec-signzone.c): NSEC3 hashes packed one after the other in a growable
  buffer, each followed by a flag byte that is nonzero for speculative wildcard hashes.
 */
module HashList {
  import opened Names
  import opened Sequences

  // ----- lists of entries

  /** All entries are `w` bytes long: a hash and its flag byte. */
  ghost predicate Packed(s: seq<Bytes>, w: nat) {
    0 < w && forall i :: 0 <= i < |s| ==> |s[i]| == w
  }

  predicate IsReal(e: Bytes) { 0 < |e| && e[|e| - 1] == 0 }

  /** The hash of an entry that is not speculative. */
  ghost function RealPart(e: Bytes): seq<Bytes> { if IsReal(e) then [e[..|e| - 1]] else [] }

  /** The hashes of the entries that are not speculative, in list order. */
  ghost function Real(s: seq<Bytes>): (r: seq<Bytes>) { Gather(s, RealPart) }

  ghost predicate Sorted(s: seq<Bytes>) {
    forall i, j :: 0 <= i < j < |s| ==> !BytesLess(s[j], s[i])
  }

  /** `Real` of a prefix is a prefix of `Real`. */
  lemma {:induction false} RealPrefix(s: seq<Bytes>, i: nat)
    requires i <= |s|
    ensures Real(s[..i]) <= Real(s)
    decreases |s| - i
  {
    if i == |s| {
      assert s[..i] == s;
    } else {
      RealPrefix(s, i + 1);
      RealSnoc(s, i);
    }
  }

  lemma RealSnoc(s: seq<Bytes>, i: nat)
    requires i < |s|
    ensures Real(s[..i + 1]) == Real(s[..i]) + if IsReal(s[i]) then [s[i][..|s[i]| - 1]] else []
  {
    assert s[..i + 1][..i] == s[..i];
  }

  /** The hash of a real entry stands in `Real` after those of the real entries before it. */
  lemma RealAt(s: seq<Bytes>, i: nat)
    requires i < |s| && IsReal(s[i])
    ensures |Real(s[..i])| < |Real(s)| && Real(s)[|Real(s[..i])|] == s[i][..|s[i]| - 1]
  {
    hide Real;
    RealPrefix(s, i + 1);
    RealSnoc(s, i);
  }

  /** Where each element of `Real` comes from. */
  lemma {:induction false} RealSource(s: seq<Bytes>, k: nat) returns (i: nat)
    requires k < |Real(s)|
    ensures i < |s| && IsReal(s[i]) && |Real(s[..i])| == k
  {
    var n := |s| - 1;
    if k < |Real(s[..n])| {
      i := RealSource(s[..n], k);
      assert s[..n][..i] == s[..i];
    } else {
      i := n;
    }
  }

  /** A run of speculative entries adds nothing to `Real`. */
  lemma {:induction false} RealOfRun(s: seq<Bytes>, i: nat, j: nat)
    requires i <= j <= |s| && forall k :: i <= k < j ==> !IsReal(s[k])
    ensures Real(s[..i]) == Real(s[..j])
    decreases j - i
  {
    hide Real;
    if i < j {
      RealOfRun(s, i, j - 1);
      RealSnoc(s, j - 1);
    }
  }

  /** How often a hash is real depends only on how often its flagged entry occurs. */
  lemma {:induction false} RealCounts(s: seq<Bytes>, h: Bytes)
    ensures multiset(Real(s))[h] == multiset(s)[h + [0]]
  {
    if s != [] {
      var n := |s| - 1;
      RealCounts(s[..n], h);
      assert s == s[..n] + [s[n]];
      if IsReal(s[n]) {
        assert s[n] == s[n][..|s[n]| - 1] + [0];
        assert s[n] == h + [0] <==> s[n][..|s[n]| - 1] == h by {
          if s[n] == h + [0] { assert (h + [0])[..|h|] == h; }
        }
      } else {
        assert s[n] != h + [0] by { assert IsReal(h + [0]); }
      }
    }
  }

  lemma RealIsListed(s: seq<Bytes>, h: Bytes)
    ensures h in Real(s) <==> h + [0] in s
  {
    RealCounts(s, h);
    assert h in Real(s) <==> multiset(Real(s))[h] > 0;
    assert h + [0] in s <==> multiset(s)[h + [0]] > 0;
  }

  lemma RealIsPermuted(s: seq<Bytes>, t: seq<Bytes>)
    requires multiset(s) == multiset(t)
    ensures multiset(Real(s)) == multiset(Real(t))
  {
    forall h ensures multiset(Real(s))[h] == multiset(Real(t))[h] {
      RealCounts(s, h);
      RealCounts(t, h);
    }
  }

  lemma FlagKeepsOrder(a: Bytes, b: Bytes)
    requires |a| == |b|
    ensures BytesLess(a + [0], b + [0]) == BytesLess(a, b)
  {
    var k := Common(a, b);
    if k == |a| {
      assert a == a[..k] == b[..k] == b;
      CommonUnique(a + [0], b + [0], |a| + 1);
    } else {
      assert (a + [0])[..k] == a[..k] && (b + [0])[..k] == b[..k];
      CommonUnique(a + [0], b + [0], k);
    }
  }

  lemma RealIsSorted(s: seq<Bytes>, w: nat)
    requires Packed(s, w) && Sorted(s)
    ensures Sorted(Real(s)) && forall k :: 0 <= k < |Real(s)| ==> |Real(s)[k]| == w - 1
  {
    hide BytesLess, Real;
    var r := Real(s);
    forall k | 0 <= k < |r| ensures |r[k]| == w - 1 {
      var i := RealSource(s, k);
      RealAt(s, i);
    }
    forall x, y | 0 <= x < y < |r| ensures !BytesLess(r[y], r[x]) {
      var i := RealSource(s, x);
      var j := RealSource(s, y);
      RealAt(s, i);
      RealAt(s, j);
      RealPrefixGrows(s, i, j);
      assert s[i] == r[x] + [0] && s[j] == r[y] + [0];
      FlagKeepsOrder(r[y], r[x]);
    }
  }

  lemma RealPrefixGrows(s: seq<Bytes>, i: nat, j: nat)
    requires i < |s| && j < |s| && |Real(s[..i])| < |Real(s[..j])|
    ensures i < j
  {
    hide Real;
    var k := if j <= i then j else i;
    RealPrefix(s[..i], k);
    assert s[..i][..k] == s[..k];
  }

  // ----- the cycle

  /** `i` moved on by at most one lap round `m` places. */
  function Wrap(i: nat, k: nat, m: nat): (j: nat)
    requires i < m && k <= m
    ensures j < m
  {
    if i + k < m then i + k else i + k - m
  }

  /** The element after `h`, wrapping round at the end. */
  ghost function CycleNext(r: seq<Bytes>, h: Bytes): (n: Bytes)
    requires h in r
    ensures n in r
  {
    var i :| 0 <= i < |r| && r[i] == h;
    r[Wrap(i, 1, |r|)]
  }

  lemma CycleNextAt(r: seq<Bytes>, i: nat)
    requires NoDup(r) && i < |r|
    ensures CycleNext(r, r[i]) == r[Wrap(i, 1, |r|)]
  {
  }

  ghost function Iterate(r: seq<Bytes>, h: Bytes, k: nat): (n: Bytes)
    requires h in r
    ensures n in r
  {
    if k == 0 then h else CycleNext(r, Iterate(r, h, k - 1))
  }

  lemma {:induction false} IterateAt(r: seq<Bytes>, i: nat, k: nat)
    requires NoDup(r) && i < |r| && k <= |r|
    ensures Iterate(r, r[i], k) == r[Wrap(i, k, |r|)]
  {
    hide CycleNext, NoDup;
    if 0 < k {
      IterateAt(r, i, k - 1);
      CycleNextAt(r, Wrap(i, k - 1, |r|));
    }
  }

  /** Following `next` from any hash `h` visits any hash `x` exactly once before coming back to `h`. */
  lemma SingleCycle(r: seq<Bytes>, h: Bytes, x: Bytes) returns (k: nat)
    requires NoDup(r) && h in r && x in r
    ensures k < |r| && Iterate(r, h, k) == x
    ensures forall j: nat :: j < |r| && Iterate(r, h, j) == x ==> j == k
    ensures Iterate(r, h, |r|) == h
  {
    hide CycleNext;
    var i :| 0 <= i < |r| && r[i] == h;
    var t :| 0 <= t < |r| && r[t] == x;
    k := if i <= t then t - i else t + |r| - i;
    IterateAt(r, i, k);
    IterateAt(r, i, |r|);
    forall j: nat | j < |r| && Iterate(r, h, j) == x ensures j == k {
      IterateAt(r, i, j);
      assert Wrap(i, j, |r|) == t;
    }
  }

  lemma {:induction false} LapIterates(r: seq<Bytes>, lap: seq<Bytes>, i: nat)
    requires lap != [] && lap[0] in r && i < |lap| && IsLap(r, lap)
    ensures lap[i] == Iterate(r, lap[0], i)
  {
    hide CycleNext;
    if 0 < i {
      LapIterates(r, lap, i - 1);
    }
  }

  /** Each hash is followed by its successor in the cycle. */
  ghost predicate IsLap(r: seq<Bytes>, lap: seq<Bytes>) {
    forall i {:trigger lap[i]} :: 0 < i < |lap| ==> lap[i - 1] in r && lap[i] == CycleNext(r, lap[i - 1])
  }

  /** One lap through a cycle lists each of its hashes once and ends where it began. */
  lemma LapVisitsAll(r: seq<Bytes>, lap: seq<Bytes>)
    requires NoDup(r) && |lap| == |r| + 1 && lap[0] in r && IsLap(r, lap)
    ensures lap[|r|] == lap[0] && NoDup(lap[..|r|]) && multiset(lap[..|r|]) == multiset(r)
  {
    hide CycleNext, IsLap;
    var n, h := |r|, lap[0];
    var whole := lap[..n];
    forall i | 0 <= i <= n ensures lap[i] == Iterate(r, h, i) {
      LapIterates(r, lap, i);
    }
    var at := SingleCycle(r, h, h);
    forall i, j | 0 <= i < j < n ensures whole[i] != whole[j] {
      var k := SingleCycle(r, h, whole[i]);
    }
    forall x ensures x in whole <==> x in r {
      if x in r {
        var k := SingleCycle(r, h, x);
        assert whole[k] == x;
      }
    }
    NoDupSameMembers(whole, r);
  }

  // ----- sorting (the C library's qsort, here an insertion sort)

  function Insert(s: seq<Bytes>, e: Bytes): (t: seq<Bytes>)
    ensures multiset(t) == multiset(s) + multiset{e}
  {
    if s == [] || !BytesLess(e, s[|s| - 1]) then s + [e]
    else
      var n := |s| - 1;
      assert s == s[..n] + [s[n]];
      Insert(s[..n], e) + [s[n]]
  }

  lemma {:induction false} InsertSorts(s: seq<Bytes>, e: Bytes)
    requires Sorted(s)
    ensures Sorted(Insert(s, e))
  {
    hide BytesLess;
    var n := |s| - 1;
    if s == [] || !BytesLess(e, s[n]) {
      forall i | 0 <= i < |s| ensures !BytesLess(e, s[i]) {
        if i < n {
          BytesNotLess(s[i], s[n], e);
        }
      }
      SortedSnoc(s, e);
    } else {
      InsertSorts(s[..n], e);
      BytesAsymmetric(e, s[n]);
      var t := Insert(s[..n], e);
      forall i | 0 <= i < |t| ensures !BytesLess(s[n], t[i]) {
        assert t[i] in multiset(t);
        assert t[i] in multiset(s[..n]) || t[i] == e;
      }
      SortedSnoc(t, s[n]);
    }
  }

  lemma SortedSnoc(s: seq<Bytes>, e: Bytes)
    requires Sorted(s) && forall i :: 0 <= i < |s| ==> !BytesLess(e, s[i])
    ensures Sorted(s + [e])
  {
    hide BytesLess;
  }

  function SortedList(s: seq<Bytes>): (t: seq<Bytes>)
    ensures multiset(t) == multiset(s)
    ensures |t| == |s|
  {
    if s == [] then []
    else
      var n := |s| - 1;
      assert s == s[..n] + [s[n]];
      var t := Insert(SortedList(s[..n]), s[n]);
      assert |multiset(t)| == |multiset(s)|;
      t
  }

  lemma {:induction false} SortedListIsSorted(s: seq<Bytes>)
    ensures Sorted(SortedList(s))
  {
    if s != [] {
      SortedListIsSorted(s[..|s| - 1]);
      InsertSorts(SortedList(s[..|s| - 1]), s[|s| - 1]);
    }
  }

  lemma PermutedStaysPacked(s: seq<Bytes>, t: seq<Bytes>, w: nat)
    requires Packed(s, w) && multiset(s) == multiset(t)
    ensures Packed(t, w)
  {
    forall i | 0 <= i < |t| ensures |t[i]| == w {
      assert t[i] in multiset(t);
      assert t[i] in s;
    }
  }

  // ----- the packed buffer

  lemma {:induction false} Fits(k: nat, n: nat, w: nat)
    requires k < n
    ensures 0 <= k * w && k * w + w <= n * w
  {
    if k + 1 < n {
      Fits(k, n - 1, w);
    }
    OneMore(n - 1, w);
  }

  lemma OneMore(n: nat, w: nat)
    ensures (n + 1) * w == n * w + w
  {
  }

  /** The first `k` entries of a packed buffer. */
  ghost function Unpack(buf: Bytes, w: nat, k: nat): (s: seq<Bytes>)
    requires k * w <= |buf|
    ensures |s| == k
  {
    if k == 0 then [] else (Fits(k - 1, k, w); Unpack(buf, w, k - 1) + [buf[(k - 1) * w..(k - 1) * w + w]])
  }

  lemma {:induction false} UnpackAt(buf: Bytes, w: nat, k: nat, i: nat)
    requires k * w <= |buf| && i < k
    ensures 0 <= i * w && i * w + w <= |buf| && Unpack(buf, w, k)[i] == buf[i * w..i * w + w]
  {
    Fits(i, k, w);
    Fits(k - 1, k, w);
    if i < k - 1 {
      UnpackAt(buf, w, k - 1, i);
    }
  }

  /** `buf'` is `buf` with the bytes of `e` written from `at` on. */
  ghost predicate Written(buf: Bytes, buf': Bytes, at: int, e: Bytes) {
    && |buf'| == |buf| && 0 <= at && at + |e| <= |buf|
    && forall b :: 0 <= b < |buf| ==> buf'[b] == if at <= b < at + |e| then e[b - at] else buf[b]
  }

  lemma SliceWritten(buf: Bytes, buf': Bytes, at: int, e: Bytes)
    requires Written(buf, buf', at, e)
    ensures buf'[at..at + |e|] == e
  {
  }

  lemma SliceApart(buf: Bytes, buf': Bytes, at: int, e: Bytes, off: int, end: int)
    requires Written(buf, buf', at, e) && 0 <= off <= end <= |buf| && (end <= at || at + |e| <= off)
    ensures buf'[off..end] == buf[off..end]
  {
  }

  /** Entries before the slot written stay. */
  lemma {:induction false} UnpackBefore(buf: Bytes, buf': Bytes, w: nat, n: nat, k: nat, e: Bytes)
    requires n <= k && n * w <= |buf| && Written(buf, buf', k * w, e)
    ensures Unpack(buf', w, n) == Unpack(buf, w, n)
  {
    hide Written;
    assert |buf'| == |buf| by { WrittenLength(buf, buf', k * w, e); }
    if n != 0 {
      Fits(n - 1, n, w);
      UnpackBefore(buf, buf', w, n - 1, k, e);
      OffsetsApart(n - 1, k, w);
      SliceApart(buf, buf', k * w, e, (n - 1) * w, (n - 1) * w + w);
    }
  }

  lemma WrittenLength(buf: Bytes, buf': Bytes, at: int, e: Bytes)
    requires Written(buf, buf', at, e)
    ensures |buf'| == |buf|
  {
  }

  lemma OffsetsApart(i: nat, k: nat, w: nat)
    requires i < k
    ensures 0 <= i * w && i * w + w <= k * w
  {
    Fits(i, k, w);
  }

  /** The slot written becomes `e`, and entries after it stay. */
  lemma {:induction false} UnpackAfter(buf: Bytes, buf': Bytes, w: nat, n: nat, k: nat, e: Bytes)
    requires k < n && n * w <= |buf| && |e| == w && Written(buf, buf', k * w, e)
    ensures |buf'| == |buf| && Unpack(buf', w, n) == Unpack(buf, w, n)[k := e]
    decreases n
  {
    hide Written;
    WrittenLength(buf, buf', k * w, e);
    Fits(n - 1, n, w);
    if n - 1 == k {
      UnpackBefore(buf, buf', w, k, k, e);
      SliceWritten(buf, buf', k * w, e);
    } else {
      UnpackAfter(buf, buf', w, n - 1, k, e);
      OffsetsApart(k, n - 1, w);
      SliceApart(buf, buf', k * w, e, (n - 1) * w, (n - 1) * w + w);
    }
  }

  /** Writing slot `k` replaces just that entry, or appends it when `k` is next. */
  lemma UnpackAfterWrite(buf: Bytes, buf': Bytes, w: nat, n: nat, k: nat, e: Bytes)
    requires n * w <= |buf| && k <= n && |e| == w && Written(buf, buf', k * w, e)
    ensures |buf'| == |buf|
    ensures k < n ==> Unpack(buf', w, n) == Unpack(buf, w, n)[k := e]
    ensures k == n ==> (n + 1) * w <= |buf| && Unpack(buf', w, n + 1) == Unpack(buf, w, n) + [e]
  {
    if k < n {
      UnpackAfter(buf, buf', w, n, k, e);
    } else {
      OneMore(n, w);
      UnpackAfter(buf, buf', w, n + 1, k, e);
    }
  }

  lemma {:induction false} UnpackSame(buf: Bytes, buf': Bytes, w: nat, n: nat)
    requires n * w <= |buf| <= |buf'| && SameBytes(buf, buf')
    ensures Unpack(buf', w, n) == Unpack(buf, w, n)
  {
    hide SameBytes;
    if n != 0 {
      Fits(n - 1, n, w);
      UnpackSame(buf, buf', w, n - 1);
      SliceSame(buf, buf', (n - 1) * w, (n - 1) * w + w);
    }
  }

  /** `buf'` begins with the bytes of `buf`. */
  ghost predicate SameBytes(buf: Bytes, buf': Bytes) {
    |buf| <= |buf'| && forall b :: 0 <= b < |buf| ==> buf'[b] == buf[b]
  }

  lemma SliceSame(buf: Bytes, buf': Bytes, off: int, end: int)
    requires SameBytes(buf, buf') && 0 <= off <= end <= |buf| <= |buf'|
    ensures buf'[off..end] == buf[off..end]
  {
  }

  /** A short entry is filled up with zero bytes. */
  function Padded(e: Bytes, w: nat): (p: Bytes)
    requires |e| <= w
    ensures |p| == w && e <= p && (forall i :: |e| <= i < w ==> p[i] == 0)
    ensures |e| == w ==> p == e
  {
    e + seq(w - |e|, _ => 0)
  }

  class Table {
    var hashbuf: array<Byte>
    var entries: nat
    var size: nat
    const length: nat

    ghost predicate Valid()
      reads this
    {
      0 < length && hashbuf.Length == size * length && entries <= size && 0 <= entries * length <= hashbuf.Length
    }

    ghost function Contents(): (s: seq<Bytes>)
      requires Valid()
      reads this, hashbuf
      ensures |s| == entries
    {
      Unpack(hashbuf[..], length, entries)
    }

    /** `hashlist_init`: room for `nodes` hashes of `length` bytes and their flag byte. */
    constructor (nodes: nat, length: nat)
      ensures Valid() && fresh(hashbuf) && this.length == length + 1
      ensures Contents() == []
    {
      this.length := length + 1;
      entries := 0;
      size := nodes;
      hashbuf := new Byte[nodes * (length + 1)](_ => 0);
    }

    method ReadEntry(k: nat) returns (e: Bytes)
      requires Valid() && k < entries
      ensures e == Contents()[k] && |e| == length
    {
      UnpackAt(hashbuf[..], length, entries, k);
      e := hashbuf[k * length..k * length + length];
    }

    /** Writes slot `k`, one of the entries or the free slot after them. */
    method WriteEntry(k: nat, e: Bytes)
      requires Valid() && k <= entries && k < size && |e| == length
      modifies hashbuf
      ensures Valid()
      ensures k < entries ==> Contents() == old(Contents())[k := e]
      ensures k == entries ==>
                (entries + 1) * length <= hashbuf.Length
                && Unpack(hashbuf[..], length, entries + 1) == old(Contents()) + [e]
    {
      Fits(k, size, length);
      var base := k * length;
      ghost var before := hashbuf[..];
      for b := 0 to length
        invariant forall x :: 0 <= x < hashbuf.Length ==>
                                hashbuf[x] == if base <= x < base + b then e[x - base] else before[x]
      {
        hashbuf[base + b] := e[b];
      }
      UnpackAfterWrite(before, hashbuf[..], length, entries, k, e);
    }

    /** The `realloc` step: the entries survive the move to a larger buffer. */
    method Grow(newsize: nat)
      requires Valid() && size < newsize
      modifies this`hashbuf, this`size
      ensures Valid() && fresh(hashbuf) && size == newsize
      ensures Contents() == old(Contents())
    {
      Fits(size, newsize, length);
      ghost var before := hashbuf[..];
      var grown := new Byte[newsize * length](_ => 0);
      var used := hashbuf.Length;
      for b := 0 to used
        invariant hashbuf == old(hashbuf) && used == hashbuf.Length <= grown.Length
        invariant forall x :: 0 <= x < used ==> hashbuf[x] == before[x]
        invariant forall x :: 0 <= x < b ==> grown[x] == hashbuf[x]
      {
        grown[b] := hashbuf[b];
      }
      assert hashbuf[..] == before && SameBytes(before, grown[..]);
      UnpackSame(before, grown[..], length, entries);
      hashbuf, size := grown, newsize;
    }

    /** `hashlist_add`. */
    method Add(hash: Bytes)
      requires Valid() && |hash| <= length
      modifies this`hashbuf, this`size, this`entries, hashbuf
      ensures Valid() && (hashbuf == old(hashbuf) || fresh(hashbuf))
      ensures Contents() == old(Contents()) + [Padded(hash, length)]
    {
      if entries == size {
        Grow(size * 2 + 100);
      }
      WriteEntry(entries, Padded(hash, length));
      entries := entries + 1;
    }

    method ReadAll() returns (all: seq<Bytes>)
      requires Valid()
      ensures all == Contents()
    {
      hide Valid, Contents, Unpack;
      all := [];
      for k := 0 to entries
        invariant |all| == k && forall i :: 0 <= i < k ==> all[i] == Contents()[i]
      {
        var e := ReadEntry(k);
        all := all + [e];
      }
    }

    method WriteAll(all: seq<Bytes>)
      requires Valid() && |all| == entries && Packed(all, length)
      modifies hashbuf
      ensures Valid() && Contents() == all
    {
      hide Valid, Contents, Unpack;
      PackedContents();
      for k := 0 to entries
        invariant Valid() && forall i :: 0 <= i < k ==> Contents()[i] == all[i]
      {
        WriteEntry(k, all[k]);
      }
    }

    /** `hashlist_sort`. */
    method Sort()
      requires Valid()
      modifies hashbuf
      ensures Valid() && Sorted(Contents()) && Packed(Contents(), length)
      ensures Contents() == SortedList(old(Contents()))
    {
      PackedContents();
      var all := ReadAll();
      var sorted := SortedList(all);
      PermutedStaysPacked(all, sorted, length);
      SortedListIsSorted(all);
      WriteAll(sorted);
    }

    lemma PackedContents()
      requires Valid()
      ensures Packed(Contents(), length) && entries <= size
    {
      forall i | 0 <= i < entries ensures |Contents()[i]| == length {
        UnpackAt(hashbuf[..], length, entries, i);
      }
    }

    /** `hashlist_exists`: only real hashes count, whatever speculative entries surround them. */
    method Exists(hash: Bytes) returns (found: bool)
      requires Valid() && Sorted(Contents())
      ensures found <==> hash in Real(Contents())
    {
      var all := ReadAll();
      var at;
      found, at := BinarySearch(all, hash + [0]);
      RealIsListed(all, hash);
    }

    /** `hashlist_hasdup` on the buffer. */
    method HasDup() returns (dup: bool)
      requires Valid() && Sorted(Contents())
      ensures dup <==> !NoDup(Real(Contents()))
    {
      PackedContents();
      var all := ReadAll();
      dup := HasRepeat(all, length);
    }

    /** `hashlist_findnext` on the buffer. */
    method FindNext(hash: Bytes) returns (nexthash: Bytes)
      requires Valid() && Sorted(Contents())
      requires hash in Real(Contents()) && NoDup(Real(Contents()))
      ensures nexthash == CycleNext(Real(Contents()), hash)
    {
      PackedContents();
      var all := ReadAll();
      nexthash := NextReal(all, length, hash);
    }

    /** The real hashes are one cycle: what `FindNext` returns, called once per real hash, is all of them. */
    lemma FindNextIsOneCycle(lap: seq<Bytes>)
      requires Valid() && NoDup(Real(Contents()))
      requires |lap| == |Real(Contents())| + 1 && lap[0] in Real(Contents()) && IsLap(Real(Contents()), lap)
      ensures lap[|lap| - 1] == lap[0] && multiset(lap[..|lap| - 1]) == multiset(Real(Contents()))
    {
      LapVisitsAll(Real(Contents()), lap);
    }
  }

  /** The C library's `bsearch`. */
  method BinarySearch(s: seq<Bytes>, key: Bytes) returns (found: bool, at: nat)
    requires Sorted(s)
    ensures found ==> at < |s| && s[at] == key
    ensures !found ==> key !in s
  {
    hide BytesLess;
    BytesOrder();
    var lo, hi := 0, |s|;
    while lo < hi
      invariant 0 <= lo <= hi <= |s|
      invariant forall i :: 0 <= i < lo ==> BytesLess(s[i], key)
      invariant forall i :: hi <= i < |s| ==> BytesLess(key, s[i])
    {
      var mid := (lo + hi) / 2;
      if s[mid] == key {
        return true, mid;
      } else if BytesLess(s[mid], key) {
        lo := mid + 1;
      } else {
        hi := mid;
      }
    }
    found, at := false, 0;
  }

  /** The loops of `hashlist_hasdup`: a repeated real hash, found by comparing neighbours. */
  method HasRepeat(s: seq<Bytes>, w: nat) returns (dup: bool)
    requires Packed(s, w) && Sorted(s)
    ensures dup <==> !NoDup(Real(s))
  {
    hide BytesLess, Sorted, NoDup;
    var next := 0;
    while next < |s| && s[next][w - 1] != 0
      invariant 0 <= next <= |s| && forall k :: 0 <= k < next ==> !IsReal(s[k])
    {
      next := next + 1;
    }
    FirstRealAlone(s, next);
    if next == |s| {
      return false;
    }
    var current := next;
    next := next + 1;
    while next < |s|
      invariant 0 <= current < next <= |s| && IsReal(s[current])
      invariant forall k :: current < k < next ==> !IsReal(s[k])
      invariant NoDup(Real(s[..current + 1]))
    {
      if s[next][w - 1] == 0 {
        if s[current][..w - 1] == s[next][..w - 1] {
          EqualNeighbours(s, w, current, next);
          return true;
        }
        NoDupExtends(s, w, current, next);
        current := next;
      }
      next := next + 1;
    }
    NothingMore(s, current);
    dup := false;
  }

  /**
    The body of `hashlist_findnext`: the next real hash round the cycle.  The search finds its hash and
    the loop never runs out of entries, so neither INSIST fires.
   */
  method NextReal(s: seq<Bytes>, w: nat, hash: Bytes) returns (nexthash: Bytes)
    requires Packed(s, w) && Sorted(s) && hash in Real(s) && NoDup(Real(s))
    ensures nexthash == CycleNext(Real(s), hash)
  {
    hide BytesLess, Sorted, NoDup, CycleNext;
    var found, start := BinarySearch(s, hash + [0]);
    RealIsListed(s, hash);
    assert found;
    var entries, next := |s|, start;
    ghost var wrapped := false;
    while true
      invariant start < |s| && 0 <= next < |s| && 0 <= entries && IsReal(s[start])
      invariant !wrapped ==> start <= next && entries == |s| - (next - start)
      invariant !wrapped ==> forall k :: start < k <= next ==> !IsReal(s[k])
      invariant wrapped ==> next < start && entries == start - next
      invariant wrapped ==> forall k :: start < k < |s| ==> !IsReal(s[k])
      invariant wrapped ==> forall k :: 0 <= k <= next ==> !IsReal(s[k])
      decreases entries
    {
      if next + 1 < |s| {
        next := next + 1;
      } else {
        next := 0;
        wrapped := true;
      }
      if s[next][w - 1] == 0 {
        break;
      }
      assert entries > 1;
      entries := entries - 1;
    }
    assert entries != 0;
    nexthash := s[next][..w - 1];
    NextRealIs(s, w, start, next, wrapped);
  }

  /** Two real entries with only speculative ones between them are neighbours in `Real`. */
  lemma RealNeighbours(s: seq<Bytes>, w: nat, i: nat, j: nat)
    requires Packed(s, w) && i < j < |s| && IsReal(s[i]) && IsReal(s[j])
    requires forall k :: i < k < j ==> !IsReal(s[k])
    ensures |Real(s[..j])| == |Real(s[..i])| + 1 < |Real(s)|
    ensures Real(s)[|Real(s[..i])|] == s[i][..w - 1] && Real(s)[|Real(s[..j])|] == s[j][..w - 1]
  {
    hide Real;
    RealOfRun(s, i + 1, j);
    RealSnoc(s, i);
    RealAt(s, i);
    RealAt(s, j);
  }

  /** Above a sorted list without duplicates, an element unequal to the last one is new. */
  lemma SortedAppend(t: seq<Bytes>, x: Bytes)
    requires NoDup(t) && Sorted(t + [x]) && t != [] && t[|t| - 1] != x
    ensures NoDup(t + [x])
  {
    hide BytesLess;
    BytesOrder();
    var n := |t| - 1;
    forall k | 0 <= k < |t| ensures t[k] != x {
      assert !BytesLess((t + [x])[n + 1], (t + [x])[n]);
      assert k < n ==> !BytesLess((t + [x])[n], (t + [x])[k]);
    }
  }

  lemma RealGrows(s: seq<Bytes>, w: nat, i: nat, j: nat)
    requires Packed(s, w) && i < j < |s| && IsReal(s[i]) && IsReal(s[j])
    requires forall k :: i < k < j ==> !IsReal(s[k])
    ensures Real(s[..j + 1]) == Real(s[..i + 1]) + [s[j][..w - 1]] <= Real(s)
    ensures Real(s[..i + 1]) == Real(s[..i]) + [s[i][..w - 1]]
  {
    hide Real;
    RealOfRun(s, i + 1, j);
    RealSnoc(s, i);
    RealSnoc(s, j);
    RealPrefix(s, j + 1);
  }

  lemma NoDupExtends(s: seq<Bytes>, w: nat, i: nat, j: nat)
    requires Packed(s, w) && Sorted(s) && i < j < |s| && IsReal(s[i]) && IsReal(s[j])
    requires forall k :: i < k < j ==> !IsReal(s[k])
    requires NoDup(Real(s[..i + 1])) && s[i][..w - 1] != s[j][..w - 1]
    ensures NoDup(Real(s[..j + 1]))
  {
    hide BytesLess;
    RealIsSorted(s, w);
    RealGrows(s, w, i, j);
    SortedPrefix(Real(s[..j + 1]), Real(s));
    SortedAppend(Real(s[..i + 1]), s[j][..w - 1]);
  }

  lemma FirstRealAlone(s: seq<Bytes>, i: nat)
    requires i <= |s| && forall k :: 0 <= k < i ==> !IsReal(s[k])
    ensures i == |s| ==> NoDup(Real(s))
    ensures i < |s| ==> NoDup(Real(s[..i + 1]))
  {
    RealOfRun(s, 0, i);
    assert s[..|s|] == s;
    if i < |s| {
      RealSnoc(s, i);
    }
  }

  lemma NothingMore(s: seq<Bytes>, i: nat)
    requires i < |s| && forall k :: i < k < |s| ==> !IsReal(s[k])
    ensures Real(s) == Real(s[..i + 1])
  {
    RealOfRun(s, i + 1, |s|);
    assert s[..|s|] == s;
  }

  lemma EqualNeighbours(s: seq<Bytes>, w: nat, i: nat, j: nat)
    requires Packed(s, w) && i < j < |s| && IsReal(s[i]) && IsReal(s[j])
    requires forall k :: i < k < j ==> !IsReal(s[k])
    requires s[i][..w - 1] == s[j][..w - 1]
    ensures !NoDup(Real(s))
  {
    RealNeighbours(s, w, i, j);
  }

  lemma SortedPrefix(t: seq<Bytes>, s: seq<Bytes>)
    requires t <= s && Sorted(s)
    ensures Sorted(t)
  {
    hide BytesLess;
  }

  lemma NextRealIs(s: seq<Bytes>, w: nat, start: nat, next: nat, wrapped: bool)
    requires Packed(s, w) && NoDup(Real(s)) && start < |s| && next < |s| && IsReal(s[start]) && IsReal(s[next])
    requires !wrapped ==> start < next && forall k :: start < k < next ==> !IsReal(s[k])
    requires wrapped ==> next <= start && (forall k :: start < k < |s| ==> !IsReal(s[k]))
                         && forall k :: 0 <= k < next ==> !IsReal(s[k])
    ensures s[start][..w - 1] in Real(s)
    ensures s[next][..w - 1] == CycleNext(Real(s), s[start][..w - 1])
  {
    assert Real(s[..0]) == [];
    hide Real, NoDup, CycleNext;
    RealAt(s, start);
    RealAt(s, next);
    CycleNextAt(Real(s), |Real(s[..start])|);
    if wrapped {
      RealOfRun(s, 0, next);
      NothingMore(s, start);
      RealSnoc(s, start);
    } else {
      RealNeighbours(s, w, start, next);
    }
  }
}
