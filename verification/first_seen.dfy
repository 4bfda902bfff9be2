/**
 First-seen interning: a table that hands every distinct value the next free
 ordinal the first time it is seen and hands the same ordinal back on every
 later sighting. Both the graph's `name -> node` table and the encoder's two
 `name -> ordinal` maps are such tables.
 */
module FirstSeen {

  /** The set of values occurring in `s`. */
  function Elements<T(==)>(s: seq<T>): set<T>
  {
    set x | x in s
  }

  /** No value occurs twice in `s`. */
  predicate Distinct<T(==)>(s: seq<T>)
  {
    forall i, j | 0 <= i < j < |s| :: s[i] != s[j]
  }

  /** The position of the first occurrence of `x` in `s`. */
  function FirstIndex<T(==)>(s: seq<T>, x: T): (i: nat)
    requires x in s
    ensures i < |s| && s[i] == x
    ensures x !in s[..i]
    decreases |s|
  {
    var p := s[..|s| - 1];
    if x in p then
      var i := FirstIndex(p, x);
      assert s[..i] == p[..i];
      i
    else
      assert s[..|s| - 1] == p;
      |s| - 1
  }

  /**
   An interning table: `order` lists the interned values by ordinal and
   `index` maps each value back to its ordinal.
   */
  datatype Interner<T(==)> = Interner(order: seq<T>, index: map<T, nat>)
  {
    /** `order` and `index` are inverse bijections between the keys and `0..|order|`. */
    predicate Valid()
    {
      && |index| == |order|
      && (forall i | 0 <= i < |order| :: order[i] in index && index[order[i]] == i)
      && (forall x | x in index :: index[x] < |order| && order[index[x]] == x)
    }
  }

  function Empty<T(==)>(): (t: Interner<T>)
    ensures t.Valid() && t.index.Keys == {}
  {
    Interner([], map[])
  }

  /**
   Look `x` up, allocating the next ordinal if it is new. Returns the updated
   table and the ordinal of `x`.
   */
  function Intern<T(==)>(t: Interner<T>, x: T): (r: (Interner<T>, nat))
    ensures x in r.0.index && r.0.index[x] == r.1
    // a value already present reuses its ordinal and allocates nothing
    ensures x in t.index ==> r.0 == t
    // a new value gets exactly one new slot, at the end
    ensures x !in t.index ==> r.0.order == t.order + [x] && r.1 == |t.order|
    // earlier entries are never moved
    ensures forall y | y in t.index :: y in r.0.index && r.0.index[y] == t.index[y]
    ensures r.0.index.Keys == t.index.Keys + {x}
    // a consistent table stays consistent, and the ordinal names the slot holding `x`
    ensures t.Valid() ==> r.0.Valid() && r.1 < |r.0.order| && r.0.order[r.1] == x
  {
    if x in t.index then
      (t, t.index[x])
    else
      var n := |t.order|;
      var t' := Interner(t.order + [x], t.index[x := n]);
      assert forall i | 0 <= i < n :: t'.order[i] == t.order[i];
      (t', n)
  }

  /** The table obtained by interning every element of `s`, left to right. */
  function InternAll<T(==)>(s: seq<T>): (t: Interner<T>)
    ensures t.Valid()
    ensures t.index.Keys == Elements(s)
    decreases |s|
  {
    if |s| == 0 then
      Empty()
    else
      var p := s[..|s| - 1];
      assert Elements(s) == Elements(p) + {s[|s| - 1]} by {
        assert s == p + [s[|s| - 1]];
      }
      Intern(InternAll(p), s[|s| - 1]).0
  }

  /** Interning the sequence `s + [x]` is interning `s` and then `x`. */
  lemma InternAllSnoc<T>(s: seq<T>, x: T)
    ensures InternAll(s + [x]) == Intern(InternAll(s), x).0
  {
    assert (s + [x])[..|s|] == s;
  }

  /**
   The table never holds a value twice and holds one entry per distinct value
   of `s`; so the number of ordinals handed out is the number of distinct values.
   */
  lemma InternAllCount<T>(s: seq<T>)
    ensures Distinct(InternAll(s).order)
    ensures Elements(InternAll(s).order) == Elements(s)
    ensures |InternAll(s).order| == |Elements(s)|
  {
    var t := InternAll(s);
    assert Elements(t.order) == t.index.Keys;
    assert |t.index.Keys| == |t.index|;
  }

  /** The first occurrence of `x` in `s`, relative to the prefix without the last element. */
  lemma FirstIndexSnoc<T>(s: seq<T>, x: T)
    requires x in s
    ensures x in s[..|s| - 1] ==> s[..FirstIndex(s, x)] == s[..|s| - 1][..FirstIndex(s[..|s| - 1], x)]
    ensures x !in s[..|s| - 1] ==> s[..FirstIndex(s, x)] == s[..|s| - 1]
  {
  }

  /** Interning one more value: old ordinals stay, a new value gets the count of those before it. */
  lemma InternAllStep<T>(s: seq<T>, x: T)
    requires x in s
    ensures x in s[..|s| - 1] ==> InternAll(s).index[x] == InternAll(s[..|s| - 1]).index[x]
    ensures x !in s[..|s| - 1] ==> InternAll(s).index[x] == |Elements(s[..|s| - 1])|
  {
    InternAllCount(s[..|s| - 1]);
  }

  /**
   The ordinal of each value is the number of distinct values seen before
   its first occurrence.
   */
  lemma {:induction false} InternAllOrdinal<T>(s: seq<T>, x: T)
    requires x in s
    ensures InternAll(s).index[x] == |Elements(s[..FirstIndex(s, x)])|
    decreases |s|
  {
    var p := s[..|s| - 1];
    InternAllStep(s, x);
    FirstIndexSnoc(s, x);
    if x in p {
      InternAllOrdinal(p, x);
    }
  }

  lemma TakeSnoc<T>(s: seq<T>, k: nat)
    requires k < |s|
    ensures s[..k + 1] == s[..k] + [s[k]]
  {
  }

  /** A position that holds `x` with no earlier `x` is the first index of `x`. */
  lemma FirstIndexUnique<T>(s: seq<T>, x: T, i: nat)
    requires i < |s| && s[i] == x && x !in s[..i]
    ensures FirstIndex(s, x) == i
  {
  }

  /** Appending to a sequence does not move the first occurrence of a value already in it. */
  lemma FirstIndexAppend<T>(p: seq<T>, q: seq<T>, x: T)
    requires x in p
    ensures FirstIndex(p + q, x) == FirstIndex(p, x)
  {
    var k := FirstIndex(p, x);
    assert (p + q)[..k] == p[..k];
    FirstIndexUnique(p + q, x, k);
  }

  /** `order` holds values of `s`, listed by increasing first occurrence in `s`. */
  ghost predicate FirstSeenOrder<T>(s: seq<T>, order: seq<T>)
  {
    && (forall i | 0 <= i < |order| :: order[i] in s)
    && (forall i, j | 0 <= i < j < |order| :: FirstIndex(s, order[i]) < FirstIndex(s, order[j]))
  }

  /** Extending `p` by one element keeps an order that lists values of `p`. */
  lemma FirstSeenOrderSnoc<T>(s: seq<T>, order: seq<T>)
    requires |s| > 0 && FirstSeenOrder(s[..|s| - 1], order)
    ensures FirstSeenOrder(s, order)
  {
    var p := s[..|s| - 1];
    forall i | 0 <= i < |order|
      ensures order[i] in s && FirstIndex(s, order[i]) == FirstIndex(p, order[i])
    {
      assert order[i] in p;
    }
  }

  /** A value first seen at the end of `s` can be appended to such an order. */
  lemma FirstSeenOrderAppendNew<T>(s: seq<T>, order: seq<T>)
    requires |s| > 0 && s[|s| - 1] !in s[..|s| - 1]
    requires FirstSeenOrder(s, order) && forall i | 0 <= i < |order| :: order[i] in s[..|s| - 1]
    ensures FirstSeenOrder(s, order + [s[|s| - 1]])
  {
    var y := s[|s| - 1];
    var o := order + [y];
    assert FirstIndex(s, y) == |s| - 1;
    forall i | 0 <= i < |order|
      ensures FirstIndex(s, order[i]) < |s| - 1
    {
      var v := order[i];
      assert v in s[..|s| - 1];
      assert FirstIndex(s, v) == FirstIndex(s[..|s| - 1], v);
    }
    forall i, j | 0 <= i < j < |o|
      ensures FirstIndex(s, o[i]) < FirstIndex(s, o[j])
    {
      assert o[i] == order[i];
      if j < |order| {
        assert o[j] == order[j];
      }
    }
  }

  /** The table lists values in the order of their first occurrence in `s`. */
  lemma {:induction false} InternAllOrder<T>(s: seq<T>)
    ensures FirstSeenOrder(s, InternAll(s).order)
    decreases |s|
  {
    if |s| > 0 {
      var p := s[..|s| - 1];
      var y := s[|s| - 1];
      InternAllOrder(p);
      InternAllCount(p);
      var tp := InternAll(p);
      FirstSeenOrderSnoc(s, tp.order);
      if y !in tp.index {
        assert InternAll(s).order == tp.order + [y];
        forall i | 0 <= i < |tp.order| ensures tp.order[i] in p {
          assert tp.order[i] in Elements(tp.order);
        }
        FirstSeenOrderAppendNew(s, tp.order);
      } else {
        assert InternAll(s).order == tp.order;
      }
    }
  }

  /** `b` holds every entry of `a` at the same ordinal, and `a`'s order is a prefix of `b`'s. */
  ghost predicate Extends<T>(a: Interner<T>, b: Interner<T>)
  {
    && a.order <= b.order
    && forall y | y in a.index :: y in b.index && b.index[y] == a.index[y]
  }

  lemma ExtendsTrans<T>(a: Interner<T>, b: Interner<T>, c: Interner<T>)
    requires Extends(a, b) && Extends(b, c)
    ensures Extends(a, c)
  {
  }

  lemma InternExtends<T>(t: Interner<T>, x: T)
    ensures Extends(t, Intern(t, x).0)
  {
  }

  /**
   Interning more values only extends the table: the table for a prefix is
   contained in the table for the whole sequence, with the same ordinals.
   */
  lemma {:induction false} InternAllExtends<T>(s: seq<T>, k: nat)
    requires k <= |s|
    ensures InternAll(s[..k]).order <= InternAll(s).order
    ensures forall y | y in InternAll(s[..k]).index ::
      y in InternAll(s).index && InternAll(s).index[y] == InternAll(s[..k]).index[y]
    decreases |s| - k
  {
    if k < |s| {
      InternAllExtends(s, k + 1);
      var a := InternAll(s[..k]);
      TakeSnoc(s, k);
      InternAllSnoc(s[..k], s[k]);
      InternExtends(a, s[k]);
      ExtendsTrans(a, InternAll(s[..k + 1]), InternAll(s));
    } else {
      assert s[..k] == s;
    }
  }
}
