/** Byte strings: big-endian counters, lexicographic order, and sorted duplicate-free lists. */
module Bytes {

  type Byte = b: int | 0 <= b < 256

  type Bytes = seq<Byte>

  const SLASH: Byte := 47

  // Big-endian counters.

  function Power256(width: nat): nat {
    if width == 0 then 1 else 0x100 * Power256(width - 1)
  }

  function BigEndian(n: nat, width: nat): (r: Bytes)
    ensures |r| == width
    decreases n + width
  {
    if width == 0 then [] else BigEndian(n / 0x100, width - 1) + [n % 0x100]
  }

  function FromBigEndian(b: Bytes): nat {
    if b == [] then 0 else FromBigEndian(b[..|b| - 1]) * 0x100 + b[|b| - 1] as int
  }

  lemma {:induction false} BigEndianRoundTrip(n: nat, width: nat)
    requires n < Power256(width)
    ensures FromBigEndian(BigEndian(n, width)) == n
    decreases width
  {
    if width > 0 {
      var r := BigEndian(n, width);
      assert r[..width - 1] == BigEndian(n / 0x100, width - 1);
      BigEndianRoundTrip(n / 0x100, width - 1);
    }
  }

  lemma {:induction false} FromBigEndianRoundTrip(b: Bytes)
    ensures FromBigEndian(b) < Power256(|b|)
    ensures BigEndian(FromBigEndian(b), |b|) == b
  {
    if b != [] {
      var n, front := FromBigEndian(b), b[..|b| - 1];
      FromBigEndianRoundTrip(front);
      assert n / 0x100 == FromBigEndian(front) && n % 0x100 == b[|b| - 1];
      assert b == front + [b[|b| - 1]];
    }
  }

  const U16_SIZE: nat := 0x1_0000
  const U32_SIZE: nat := 0x1_0000_0000

  lemma SizesArePowers()
    ensures Power256(2) == U16_SIZE && Power256(4) == U32_SIZE
  {
  }

  // Lexicographic order.

  predicate Less(a: Bytes, b: Bytes) {
    if b == [] then false
    else if a == [] then true
    else a[0] < b[0] || (a[0] == b[0] && Less(a[1..], b[1..]))
  }

  lemma {:induction false} LessTotal(a: Bytes, b: Bytes)
    ensures a == b || Less(a, b) || Less(b, a)
  {
    if a != [] && b != [] && a[0] == b[0] {
      LessTotal(a[1..], b[1..]);
      assert a == [a[0]] + a[1..] && b == [b[0]] + b[1..];
    }
  }

  lemma {:induction false} LessIrreflexive(a: Bytes)
    ensures !Less(a, a)
  {
    if a != [] { LessIrreflexive(a[1..]); }
  }

  lemma {:induction false} LessTransitive(a: Bytes, b: Bytes, c: Bytes)
    requires Less(a, b) && Less(b, c)
    ensures Less(a, c)
  {
    if a != [] && a[0] == b[0] && b[0] == c[0] { LessTransitive(a[1..], b[1..], c[1..]); }
  }

  // Items ordered by a byte-string key.

  predicate Ascends<T>(key: T -> Bytes, items: seq<T>) {
    forall i :: 0 < i < |items| ==> Less(key(items[i - 1]), key(items[i]))
  }

  lemma {:induction false} AscendsFar<T>(key: T -> Bytes, items: seq<T>, i: nat, j: nat)
    requires Ascends(key, items) && i < j < |items|
    ensures Less(key(items[i]), key(items[j]))
    decreases j
  {
    if i < j - 1 {
      AscendsFar(key, items, i, j - 1);
      LessTransitive(key(items[i]), key(items[j - 1]), key(items[j]));
    }
  }

  lemma AscendsTail<T>(key: T -> Bytes, items: seq<T>)
    requires Ascends(key, items) && items != []
    ensures Ascends(key, items[1..])
    ensures forall x :: x in items[1..] ==> Less(key(items[0]), key(x))
  {
    forall i | 0 < i < |items[1..]| ensures Less(key(items[1..][i - 1]), key(items[1..][i])) {
      assert items[1..][i] == items[i + 1] && items[1..][i - 1] == items[i];
      assert Less(key(items[i + 1 - 1]), key(items[i + 1]));
    }
    forall x | x in items[1..] ensures Less(key(items[0]), key(x)) {
      var j :| 0 <= j < |items[1..]| && items[1..][j] == x;
      AscendsFar(key, items, 0, j + 1);
    }
  }

  function Whole(b: Bytes): Bytes { b }

  /** Insert into an ascending list; an item whose key is already there is dropped. */
  function Insert<T>(key: T -> Bytes, x: T, items: seq<T>): (r: seq<T>)
  {
    if items == [] then [x]
    else if Less(key(x), key(items[0])) then [x] + items
    else if key(x) == key(items[0]) then items
    else [items[0]] + Insert(key, x, items[1..])
  }

  /** Sort by key and keep one item per key. */
  function SortDistinct<T>(key: T -> Bytes, items: seq<T>): seq<T> {
    if items == [] then [] else Insert(key, items[0], SortDistinct(key, items[1..]))
  }

  lemma {:induction false} InsertMeaning<T>(key: T -> Bytes, x: T, items: seq<T>)
    requires Ascends(key, items)
    ensures Ascends(key, Insert(key, x, items))
    ensures forall y :: y in Insert(key, x, items) ==> y == x || y in items
    ensures forall y :: y in items ==> y in Insert(key, x, items)
    ensures exists y :: y in Insert(key, x, items) && key(y) == key(x)
  {
    var r := Insert(key, x, items);
    if items == [] || Less(key(x), key(items[0])) {
      assert r[0] == x && r[0] in r;
      forall i | 0 < i < |r| ensures Less(key(r[i - 1]), key(r[i])) {
        if i > 1 { assert Less(key(items[i - 1 - 1]), key(items[i - 1])); }
      }
    } else if key(x) == key(items[0]) {
      assert items[0] in r;
    } else {
      AscendsTail(key, items);
      InsertMeaning(key, x, items[1..]);
      var rest := Insert(key, x, items[1..]);
      LessTotal(key(x), key(items[0]));
      assert r == [items[0]] + rest;
      var y :| y in rest && key(y) == key(x);
      assert y in r;
      forall i | 0 < i < |r| ensures Less(key(r[i - 1]), key(r[i])) {
        if i == 1 {
          assert rest[0] in rest;
        } else {
          assert Less(key(rest[i - 1 - 1]), key(rest[i - 1]));
        }
      }
      assert forall z :: z in items ==> z == items[0] || z in items[1..];
    }
  }

  ghost predicate HasKey<T>(key: T -> Bytes, items: seq<T>, k: Bytes) {
    exists x :: x in items && key(x) == k
  }

  /** The result ascends strictly, holds only given items, and has exactly the given keys. */
  lemma {:induction false} SortDistinctMeaning<T>(key: T -> Bytes, items: seq<T>)
    ensures Ascends(key, SortDistinct(key, items))
    ensures forall x :: x in SortDistinct(key, items) ==> x in items
    ensures forall x :: x in items ==> HasKey(key, SortDistinct(key, items), key(x))
  {
    if items != [] {
      SortDistinctMeaning(key, items[1..]);
      var rest := SortDistinct(key, items[1..]);
      InsertMeaning(key, items[0], rest);
      forall x | x in items ensures HasKey(key, SortDistinct(key, items), key(x)) {
        if x in items[1..] {
          var y :| y in rest && key(y) == key(x);
        }
      }
    }
  }

  lemma {:induction false} InsertSize<T>(key: T -> Bytes, x: T, items: seq<T>)
    requires Ascends(key, items)
    ensures HasKey(key, items, key(x)) ==> Insert(key, x, items) == items
    ensures !HasKey(key, items, key(x)) ==> multiset(Insert(key, x, items)) == multiset(items) + multiset{x}
    ensures !HasKey(key, items, key(x)) ==> |Insert(key, x, items)| == |items| + 1
  {
    if items != [] {
      AscendsTail(key, items);
      LessIrreflexive(key(x));
      assert items == [items[0]] + items[1..] && items[0] in items;
      assert forall y :: y in items <==> y == items[0] || y in items[1..];
      if Less(key(x), key(items[0])) {
        forall y | y in items[1..] ensures key(y) != key(x) { LessTransitive(key(x), key(items[0]), key(y)); }
      } else if key(x) != key(items[0]) {
        InsertSize(key, x, items[1..]);
        assert HasKey(key, items, key(x)) <==> HasKey(key, items[1..], key(x));
      }
    }
  }

  ghost predicate KeysDiffer<T>(key: T -> Bytes, items: seq<T>) {
    forall i, j :: 0 <= i < j < |items| ==> key(items[i]) != key(items[j])
  }

  lemma DistinctFirst<T>(key: T -> Bytes, items: seq<T>)
    requires items != []
    ensures KeysDiffer(key, items) <==>
            KeysDiffer(key, items[1..]) && !HasKey(key, items[1..], key(items[0]))
  {
    var rest := items[1..];
    if KeysDiffer(key, items) {
      forall x | x in rest ensures key(x) != key(items[0]) {
        var i :| 0 <= i < |rest| && rest[i] == x;
        assert items[i + 1] == x;
      }
    } else {
      var i, j :| 0 <= i < j < |items| && key(items[i]) == key(items[j]);
      assert items[j] == rest[j - 1] && rest[j - 1] in rest;
      if i > 0 { assert items[i] == rest[i - 1]; }
    }
  }

  lemma SortHasKeys<T>(key: T -> Bytes, items: seq<T>, k: Bytes)
    ensures HasKey(key, SortDistinct(key, items), k) <==> HasKey(key, items, k)
  {
    SortDistinctMeaning(key, items);
    if x :| x in items && key(x) == k { assert HasKey(key, SortDistinct(key, items), key(x)); }
  }

  lemma {:induction false} SortSize<T>(key: T -> Bytes, items: seq<T>)
    ensures |SortDistinct(key, items)| <= |items|
    ensures |SortDistinct(key, items)| == |items| <==> KeysDiffer(key, items)
  {
    if items == [] {
      SingleDistinct(key, items);
    } else {
      hide Ascends, KeysDiffer, HasKey, Insert;
      SortSize(key, items[1..]);
      SortDistinctMeaning(key, items[1..]);
      InsertSize(key, items[0], SortDistinct(key, items[1..]));
      DistinctFirst(key, items);
      SortHasKeys(key, items[1..], key(items[0]));
    }
  }

  lemma {:induction false} SortPermutes<T>(key: T -> Bytes, items: seq<T>)
    requires KeysDiffer(key, items)
    ensures multiset(SortDistinct(key, items)) == multiset(items)
  {
    if items != [] {
      hide Ascends, KeysDiffer, HasKey, Insert;
      DistinctFirst(key, items);
      SortPermutes(key, items[1..]);
      SortDistinctMeaning(key, items[1..]);
      InsertSize(key, items[0], SortDistinct(key, items[1..]));
      SortHasKeys(key, items[1..], key(items[0]));
      assert items == [items[0]] + items[1..];
    }
  }

  /** Sorting keeps every item exactly if no two share a key, and otherwise shortens the list. */
  lemma SortKeepsAllIff<T>(key: T -> Bytes, items: seq<T>)
    ensures |SortDistinct(key, items)| <= |items|
    ensures |SortDistinct(key, items)| == |items| <==> KeysDiffer(key, items)
    ensures KeysDiffer(key, items) ==> multiset(SortDistinct(key, items)) == multiset(items)
  {
    hide KeysDiffer, SortDistinct;
    SortSize(key, items);
    if KeysDiffer(key, items) { SortPermutes(key, items); }
  }

  lemma SingleDistinct<T>(key: T -> Bytes, items: seq<T>)
    requires |items| <= 1
    ensures KeysDiffer(key, items)
  {
  }

  /** Two ascending lists of byte strings with the same members are the same list. */
  lemma {:induction false} AscendingUnique(a: seq<Bytes>, b: seq<Bytes>)
    requires Ascends(Whole, a) && Ascends(Whole, b)
    requires forall x :: x in a <==> x in b
    ensures a == b
  {
    assert |b| > 0 ==> b[0] in b;
    if a != [] {
      assert a[0] in b;
      assert b != [] && b[0] in a;
      AscendsTail(Whole, a);
      AscendsTail(Whole, b);
      if a[0] != b[0] {
        assert a[0] in b[1..] && b[0] in a[1..];
        LessTransitive(a[0], b[0], a[0]);
        LessIrreflexive(a[0]);
      }
      LessIrreflexive(a[0]);
      forall x ensures x in a[1..] <==> x in b[1..] {
        assert x in a <==> x == a[0] || x in a[1..];
        assert x in b <==> x == b[0] || x in b[1..];
      }
      AscendingUnique(a[1..], b[1..]);
      assert a == [a[0]] + a[1..] && b == [b[0]] + b[1..];
    }
  }
}
