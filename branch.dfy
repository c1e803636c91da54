/**
 * The branch order of the list model: an ordered list of branch (replica)
 * identifiers in which an identifier's index is its tie-break rank.
 *
 * The first half of the module specifies the operations on plain sequences
 * and proves their properties; the class `BranchOrder` at the end holds the
 * list as a mutable field and is proved against those functions.
 */
module Branch {

  /** The result of reading an array slot: `None` stands for `undefined`. */
  datatype Option<T> = None | Some(value: T)

  /** No identifier occurs twice. */
  predicate Distinct<T(==)>(s: seq<T>) {
    forall i, j :: 0 <= i < j < |s| ==> s[i] != s[j]
  }

  // ---------------------------------------------------------------------------
  // Find-or-append (`i`)
  // ---------------------------------------------------------------------------

  /** The index of the first occurrence of `x` in `s`, or -1 when there is none. */
  function IndexOf<T(==)>(s: seq<T>, x: T): (k: int)
    ensures -1 <= k < |s|
    ensures k == -1 <==> x !in s
    ensures 0 <= k ==> s[k] == x && forall j :: 0 <= j < k ==> s[j] != x
  {
    if |s| == 0 then -1
    else if s[0] == x then 0
    else
      var k := IndexOf(s[1..], x);
      if k == -1 then -1 else k + 1
  }

  /** The order after `br` has been looked up: unchanged if `br` is known, else `br` appended. */
  function Registered<T(==)>(s: seq<T>, br: T): (r: seq<T>)
    ensures br in r
    ensures br in s ==> r == s
    ensures br !in s ==> |r| == |s| + 1 && r[..|s|] == s && r[|s|] == br
  {
    if br in s then s else s + [br]
  }

  /** The rank `i(br)` returns: the first occurrence of `br` in the order after the lookup. */
  function Rank<T(==)>(s: seq<T>, br: T): (k: nat)
    ensures k < |Registered(s, br)| && Registered(s, br)[k] == br
    ensures forall j :: 0 <= j < k ==> Registered(s, br)[j] != br
    ensures br !in s ==> k == |s|
  {
    if br in s then IndexOf(s, br) else |s|
  }

  /** The rank is exactly where `indexOf` finds `br` once it has been registered. */
  lemma RankIsIndexOf<T>(s: seq<T>, br: T)
    ensures Rank(s, br) == IndexOf(Registered(s, br), br)
  {
  }

  /** Looking up an identifier a second time changes nothing and returns the same rank. */
  lemma RegisterIdempotent<T>(s: seq<T>, br: T)
    ensures Registered(Registered(s, br), br) == Registered(s, br)
    ensures Rank(Registered(s, br), br) == Rank(s, br)
  {
  }

  /** An order that extends another keeps the rank of every identifier already present. */
  lemma {:induction false} IndexOfPrefix<T>(s: seq<T>, t: seq<T>, x: T)
    requires x in s
    ensures IndexOf(s + t, x) == IndexOf(s, x)
  {
    if s[0] != x {
      assert (s + t)[1..] == s[1..] + t;
      IndexOfPrefix(s[1..], t, x);
    }
  }

  /** Ranks are append-only: a lookup never moves an identifier that was already present. */
  lemma RegisterKeepsRanks<T>(s: seq<T>, br: T, x: T)
    requires x in s
    ensures IndexOf(Registered(s, br), x) == IndexOf(s, x)
  {
    if br !in s {
      IndexOfPrefix(s, [br], x);
    }
  }

  /** A lookup keeps an order free of duplicates. */
  lemma RegisterKeepsDistinct<T>(s: seq<T>, br: T)
    requires Distinct(s)
    ensures Distinct(Registered(s, br))
  {
  }

  /** The order after looking up every identifier of `hs` in turn. */
  function RegisteredAll<T(==)>(s: seq<T>, hs: seq<T>): (r: seq<T>)
    decreases |hs|
  {
    if |hs| == 0 then s else RegisteredAll(Registered(s, hs[0]), hs[1..])
  }

  /**
   * Over a whole history of lookups the order only grows at its end, it ends up
   * holding exactly the identifiers seen, and it stays free of duplicates.
   */
  lemma {:induction false} RegisteredAllGrows<T>(s: seq<T>, hs: seq<T>)
    ensures |s| <= |RegisteredAll(s, hs)| && RegisteredAll(s, hs)[..|s|] == s
    ensures forall x :: x in RegisteredAll(s, hs) <==> x in s || x in hs
    ensures Distinct(s) ==> Distinct(RegisteredAll(s, hs))
    decreases |hs|
  {
    if |hs| > 0 {
      var s' := Registered(s, hs[0]);
      RegisteredAllGrows(s', hs[1..]);
      assert hs == [hs[0]] + hs[1..];
      var r := RegisteredAll(s, hs);
      assert r[..|s|] == r[..|s'|][..|s|];
      forall x | x in s' ensures x in r {
        assert x in r[..|s'|];
      }
    }
  }

  /** Identifiers seen first, in first-seen order, get ranks 0, 1, 2, ... */
  lemma FirstSeenRanks<T>(u1: T, u2: T, u3: T)
    requires u1 != u2 && u1 != u3 && u2 != u3
    ensures RegisteredAll([], [u1, u2, u3]) == [u1, u2, u3]
    ensures Rank([], u1) == 0 && Rank([u1], u2) == 1 && Rank([u1, u2], u3) == 2
  {
    assert [u1, u2, u3][1..] == [u2, u3];
    assert [u2, u3][1..] == [u3];
    assert RegisteredAll([], [u1, u2, u3]) == RegisteredAll([u1], [u2, u3]);
    assert Registered([u1], u2) == [u1, u2];
    assert RegisteredAll([u1], [u2, u3]) == RegisteredAll([u1, u2], [u3]);
    assert Registered([u1, u2], u3) == [u1, u2, u3];
    assert RegisteredAll([u1, u2], [u3]) == RegisteredAll([u1, u2, u3], []);
  }

  // ---------------------------------------------------------------------------
  // Comparator-driven ordered insertion (`insertOrdered`)
  // ---------------------------------------------------------------------------

  /** The first index `k` with `cf(br, s[k]) < 0`, or `|s|` when there is none. */
  function InsertionPoint<T>(s: seq<T>, br: T, cf: (T, T) -> int): (k: nat)
    ensures k <= |s|
    ensures forall j :: 0 <= j < k ==> cf(br, s[j]) >= 0
    ensures k < |s| ==> cf(br, s[k]) < 0
  {
    if |s| == 0 then 0
    else if cf(br, s[0]) < 0 then 0
    else 1 + InsertionPoint(s[1..], br, cf)
  }

  /** The order after `insertOrdered(br, cf)`. */
  function InsertedOrdered<T>(s: seq<T>, br: T, cf: (T, T) -> int): (r: seq<T>)
    ensures |r| == |s| + 1
    ensures r[InsertionPoint(s, br, cf)] == br
    ensures forall j :: 0 <= j < InsertionPoint(s, br, cf) ==> r[j] == s[j]
    ensures forall j :: InsertionPoint(s, br, cf) <= j < |s| ==> r[j + 1] == s[j]
    ensures multiset(r) == multiset(s) + multiset{br}
  {
    var k := InsertionPoint(s, br, cf);
    assert s == s[..k] + s[k..];
    s[..k] + [br] + s[k..]
  }

  /** Insertion does not check membership: inserting a known identifier duplicates it. */
  lemma InsertedOrderedMayDuplicate<T>(s: seq<T>, br: T, cf: (T, T) -> int)
    requires br in s
    ensures multiset(InsertedOrdered(s, br, cf))[br] == multiset(s)[br] + 1
    ensures !Distinct(InsertedOrdered(s, br, cf))
  {
    var r := InsertedOrdered(s, br, cf);
    var k := InsertionPoint(s, br, cf);
    var m := IndexOf(s, br);
    if m < k {
      assert r[m] == br && r[k] == br;
    } else {
      assert r[k] == br && r[m + 1] == br;
    }
  }

  /** Inserting an identifier not yet present keeps an order free of duplicates. */
  lemma InsertedOrderedKeepsDistinct<T>(s: seq<T>, br: T, cf: (T, T) -> int)
    requires Distinct(s) && br !in s
    ensures Distinct(InsertedOrdered(s, br, cf))
  {
    var r := InsertedOrdered(s, br, cf);
    var k := InsertionPoint(s, br, cf);
    forall i, j | 0 <= i < j < |r| ensures r[i] != r[j] {
      if j < k {
      } else if i < k && j == k {
        assert r[i] == s[i];
      } else if i < k {
        assert r[i] == s[i] && r[j] == s[j - 1];
      } else if i == k {
        assert r[j] == s[j - 1];
      } else {
        assert r[i] == s[i - 1] && r[j] == s[j - 1];
      }
    }
  }

  /** `cf` behaves as a comparator on the elements of `xs`. */
  ghost predicate ComparatorOn<T>(cf: (T, T) -> int, xs: seq<T>) {
    && (forall a, b :: a in xs && b in xs ==> (cf(a, b) < 0 <==> cf(b, a) > 0))
    && (forall a, b, c :: a in xs && b in xs && c in xs && cf(a, b) <= 0 && cf(b, c) <= 0 ==> cf(a, c) <= 0)
  }

  /** No element is greater than a later one. */
  ghost predicate SortedBy<T>(s: seq<T>, cf: (T, T) -> int) {
    forall i, j :: 0 <= i < j < |s| ==> cf(s[i], s[j]) <= 0
  }

  /** When `cf` is a comparator and the order is sorted by it, insertion keeps it sorted. */
  lemma InsertedOrderedKeepsSorted<T>(s: seq<T>, br: T, cf: (T, T) -> int)
    requires ComparatorOn(cf, s + [br])
    requires SortedBy(s, cf)
    ensures SortedBy(InsertedOrdered(s, br, cf), cf)
  {
    var r := InsertedOrdered(s, br, cf);
    var k := InsertionPoint(s, br, cf);
    var xs := s + [br];
    assert br in xs;
    forall i, j | 0 <= i < j < |r| ensures cf(r[i], r[j]) <= 0 {
      if j < k {
        assert r[i] == s[i] && r[j] == s[j];
      } else if i < k && j == k {
        assert r[i] == s[i] && s[i] in xs;
        assert cf(br, s[i]) >= 0;
      } else if i < k {
        assert r[i] == s[i] && r[j] == s[j - 1];
      } else if i == k {
        assert r[j] == s[j - 1];
        assert s[k] in xs && s[j - 1] in xs;
        assert cf(br, s[k]) < 0;
        if k < j - 1 {
          assert cf(s[k], s[j - 1]) <= 0;
        }
      } else {
        assert r[i] == s[i - 1] && r[j] == s[j - 1];
      }
    }
  }

  // ---------------------------------------------------------------------------
  // Mapped (de)serialisation (`toJSON`, `fromJSON`)
  // ---------------------------------------------------------------------------

  /** `s.map(f)`. */
  function Mapped<T, U>(s: seq<T>, f: T -> U): (r: seq<U>)
    ensures |r| == |s|
    ensures forall j :: 0 <= j < |s| ==> r[j] == f(s[j])
  {
    seq(|s|, j requires 0 <= j < |s| => f(s[j]))
  }

  /** Mapping out and back with mutually inverse mappers reproduces the order. */
  lemma MappedRoundTrip<T, U>(s: seq<T>, f: T -> U, g: U -> T)
    requires forall x :: x in s ==> g(f(x)) == x
    ensures Mapped(Mapped(s, f), g) == s
  {
  }

  /** With the identity mappers, `fromJSON(toJSON())` reproduces the order exactly. */
  lemma IdentityRoundTrip<T>(s: seq<T>)
    ensures Mapped(Mapped(s, (k: T) => k), (k: T) => k) == s
  {
    MappedRoundTrip(s, (k: T) => k, (k: T) => k);
  }

  // ---------------------------------------------------------------------------
  // The mutable branch order
  // ---------------------------------------------------------------------------

  class BranchOrder<T(==)> {
    /** The identifiers; an identifier's index is its rank. */
    var order: seq<T>

    constructor (order: seq<T>)
      ensures this.order == order
    {
      this.order := order;
    }

    /** The `length` getter. */
    function Length(): nat
      reads this
    {
      |order|
    }

    /** Finds the rank of `br`, appending `br` first when it is not yet known. */
    method I(br: T) returns (k: nat)
      modifies this
      ensures order == Registered(old(order), br) && k == Rank(old(order), br)
      ensures br !in old(order) ==> order == old(order) + [br] && k == old(Length())
      ensures br in old(order) ==> order == old(order) && k == IndexOf(order, br)
      ensures Length() == old(Length()) + (if br in old(order) then 0 else 1)
      ensures B(k) == Some(br)
      ensures forall x :: x in old(order) ==> IndexOf(order, x) == IndexOf(old(order), x)
    {
      if br !in order {
        order := order + [br];
        k := |order| - 1;
      } else {
        k := IndexOf(order, br);
      }
      forall x | x in old(order) ensures IndexOf(order, x) == IndexOf(old(order), x) {
        RegisterKeepsRanks(old(order), br, x);
      }
    }

    /** The identifier at rank `index`, or `None` (undefined) when there is none. */
    function B(index: int): (r: Option<T>)
      reads this
      ensures r.Some? <==> 0 <= index < |order|
      ensures r.Some? ==> r.value == order[index]
    {
      if 0 <= index < |order| then Some(order[index]) else None
    }

    /**
     * Inserts `br` before the first identifier `x` with `cf(br, x) < 0`, or at
     * the end when there is none, and returns this same object.
     */
    method InsertOrdered(br: T, cf: (T, T) -> int) returns (r: BranchOrder<T>)
      modifies this
      ensures r == this
      ensures order == InsertedOrdered(old(order), br, cf)
      ensures Length() == old(Length()) + 1
    {
      r := this;
      var len := |order|;
      for i := 0 to len
        invariant order == old(order)
        invariant forall j :: 0 <= j < i ==> cf(br, order[j]) >= 0
      {
        if cf(br, order[i]) < 0 {
          assert i == InsertionPoint(order, br, cf);
          order := order[..i] + [br] + order[i..];
          return;
        }
      }
      assert len == InsertionPoint(order, br, cf);
      order := order + [br];
    }

    /** `toJSON(mapper)`: every identifier passed through `mapper`, in rank order. */
    function ToJSON<U>(mapper: T -> U): (r: seq<U>)
      reads this
      ensures |r| == |order|
      ensures forall j :: 0 <= j < |order| ==> r[j] == mapper(order[j])
    {
      Mapped(order, mapper)
    }

    /** `fromJSON(json, mapper)`: a fresh order holding every entry of `json` passed through `mapper`. */
    static method FromJSON<J>(json: seq<J>, mapper: J -> T) returns (o: BranchOrder<T>)
      ensures fresh(o)
      ensures |o.order| == |json|
      ensures forall j :: 0 <= j < |json| ==> o.order[j] == mapper(json[j])
    {
      o := new BranchOrder(Mapped(json, mapper));
    }
  }

  /** Serialising and restoring with mutually inverse mappers gives an equal, separate order. */
  method RestoreFromJSON<T(==), U>(o: BranchOrder<T>, toKey: T -> U, fromKey: U -> T)
    returns (p: BranchOrder<T>)
    requires forall x :: x in o.order ==> fromKey(toKey(x)) == x
    ensures fresh(p) && p.order == o.order
  {
    var json := o.ToJSON(toKey);
    p := BranchOrder.FromJSON(json, fromKey);
    assert p.order == Mapped(Mapped(o.order, toKey), fromKey);
    MappedRoundTrip(o.order, toKey, fromKey);
  }

  /** The list model's setup: three distinct branches registered in turn get ranks 0, 1, 2. */
  method RegisterThree<T(==)>(u1: T, u2: T, u3: T) returns (o: BranchOrder<T>, k1: nat, k2: nat, k3: nat)
    requires u1 != u2 && u1 != u3 && u2 != u3
    ensures fresh(o)
    ensures o.order == [u1, u2, u3] && k1 == 0 && k2 == 1 && k3 == 2
    ensures o.B(0) == Some(u1) && o.B(1) == Some(u2) && o.B(2) == Some(u3) && o.B(3) == None
  {
    o := new BranchOrder([]);
    k1 := o.I(u1);
    k2 := o.I(u2);
    k3 := o.I(u3);
  }
}
