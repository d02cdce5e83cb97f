/** The root component's cart: an ordered list of variant ids in which
    duplicates are allowed. Adding appends one id; removing an id deletes
    every occurrence of it, not just one. */
module Cart {

  /** How many times `id` occurs in `cart`. */
  function Count(cart: seq<int>, id: int): nat {
    if cart == [] then 0
    else (if cart[0] == id then 1 else 0) + Count(cart[1..], id)
  }

  /** `updateCart`: append `id` at the end. */
  function Add(cart: seq<int>, id: int): (r: seq<int>)
    ensures |r| == |cart| + 1
    ensures r[..|cart|] == cart && r[|cart|] == id
  {
    cart + [id]
  }

  /** `removeFromCart`: keep every entry that differs from `id`. */
  function Remove(cart: seq<int>, id: int): (r: seq<int>)
    ensures id !in r
    ensures |r| == |cart| - Count(cart, id)
    ensures forall x :: x in r ==> x in cart
  {
    if cart == [] then []
    else if cart[0] == id then Remove(cart[1..], id)
    else [cart[0]] + Remove(cart[1..], id)
  }

  // ---------------------------------------------------------------------
  // Remove against an independent description of filtering

  /** `sub` is `s` with some entries deleted and the rest kept in order. */
  predicate Subsequence(sub: seq<int>, s: seq<int>)
    decreases |s|
  {
    if sub == [] then true
    else if s == [] then false
    else (sub[0] == s[0] && Subsequence(sub[1..], s[1..])) || Subsequence(sub, s[1..])
  }

  /** The result of a removal: a subsequence of the cart with no `id` left
      and every other id as many times as before. */
  predicate IsRemoval(cart: seq<int>, id: int, r: seq<int>) {
    && Subsequence(r, cart)
    && multiset(r) == multiset(cart)[id := 0]
  }

  /** `Remove` produces a removal. */
  lemma {:induction false} RemoveIsRemoval(cart: seq<int>, id: int)
    ensures IsRemoval(cart, id, Remove(cart, id))
    decreases |cart|
  {
    if cart != [] {
      RemoveIsRemoval(cart[1..], id);
      assert cart == [cart[0]] + cart[1..];
      assert multiset(cart) == multiset{cart[0]} + multiset(cart[1..]);
      var r := Remove(cart, id);
      if cart[0] != id {
        assert r[1..] == Remove(cart[1..], id);
      }
    }
  }

  /** Every entry of a subsequence can be matched in the original, so the
      subsequence holds no more copies of any value. */
  lemma {:induction false} SubsequenceMultiset(sub: seq<int>, s: seq<int>)
    requires Subsequence(sub, s)
    ensures multiset(sub) <= multiset(s)
    decreases |s|
  {
    if sub != [] {
      assert s == [s[0]] + s[1..];
      if sub[0] == s[0] && Subsequence(sub[1..], s[1..]) {
        SubsequenceMultiset(sub[1..], s[1..]);
        assert sub == [sub[0]] + sub[1..];
      } else {
        SubsequenceMultiset(sub, s[1..]);
      }
    }
  }

  /** There is only one removal, so `Remove` is exactly the filter the
      source performs. */
  lemma {:induction false} RemovalUnique(cart: seq<int>, id: int, r: seq<int>)
    requires IsRemoval(cart, id, r)
    ensures r == Remove(cart, id)
    decreases |cart|
  {
    if cart == [] {
      assert |multiset(r)| == 0;
    } else {
      var x := cart[0];
      assert cart == [x] + cart[1..];
      assert multiset(cart) == multiset{x} + multiset(cart[1..]);
      if x == id {
        assert id !in multiset(r);
        assert r == [] || r[0] != x;
        assert Subsequence(r, cart[1..]);
        assert multiset(cart)[id := 0] == multiset(cart[1..])[id := 0];
        RemovalUnique(cart[1..], id, r);
      } else {
        assert multiset(r)[x] == multiset(cart)[x] > 0;
        assert r == [r[0]] + r[1..];
        assert multiset(r) == multiset{r[0]} + multiset(r[1..]);
        if r[0] == x && Subsequence(r[1..], cart[1..]) {
          ZeroAfterOther(multiset(cart[1..]), x, id);
          assert multiset{x} + multiset(r[1..]) == multiset{x} + multiset(cart[1..])[id := 0];
          assert multiset(r[1..]) == multiset(cart[1..])[id := 0] by {
            assert multiset(r[1..]) == (multiset{x} + multiset(r[1..])) - multiset{x};
            assert multiset(cart[1..])[id := 0] == (multiset{x} + multiset(cart[1..])[id := 0]) - multiset{x};
          }
          RemovalUnique(cart[1..], id, r[1..]);
        } else {
          // matching x later would leave one copy of x too few
          assert Subsequence(r, cart[1..]);
          SubsequenceMultiset(r, cart[1..]);
          assert false;
        }
      }
    }
  }

  /** Zeroing one value commutes with adding a copy of a different value. */
  lemma ZeroAfterOther(m: multiset<int>, x: int, id: int)
    requires x != id
    ensures (multiset{x} + m)[id := 0] == multiset{x} + m[id := 0]
  {
  }

  // ---------------------------------------------------------------------
  // Algebraic properties

  /** Removing acts on each part of a cart separately, so the surviving ids
      keep their relative order. */
  lemma {:induction false} RemoveConcat(a: seq<int>, b: seq<int>, id: int)
    ensures Remove(a + b, id) == Remove(a, id) + Remove(b, id)
    decreases |a|
  {
    if a == [] {
      assert a + b == b;
    } else {
      RemoveConcat(a[1..], b, id);
      assert (a + b)[1..] == a[1..] + b;
    }
  }

  /** Removing an id twice is the same as removing it once. */
  lemma RemoveIdempotent(cart: seq<int>, id: int)
    ensures Remove(Remove(cart, id), id) == Remove(cart, id)
  {
    RemoveAbsent(Remove(cart, id), id);
  }

  /** Removing an id that is not in the cart changes nothing. */
  lemma {:induction false} RemoveAbsent(cart: seq<int>, id: int)
    requires id !in cart
    ensures Remove(cart, id) == cart
    decreases |cart|
  {
    if cart != [] {
      RemoveAbsent(cart[1..], id);
    }
  }

  /** Removal deletes every earlier add of the id, however many there were;
      an add of another id survives. */
  lemma RemoveAfterAdd(cart: seq<int>, added: int, id: int)
    ensures Remove(Add(cart, added), id)
         == Remove(cart, id) + (if added == id then [] else [added])
  {
    RemoveConcat(cart, [added], id);
  }

  /** Count of ids after an add: one more of the added id, the others unchanged. */
  lemma CountAdd(cart: seq<int>, added: int, x: int)
    ensures Count(Add(cart, added), x) == Count(cart, x) + (if added == x then 1 else 0)
  {
    CountConcat(cart, [added], x);
  }

  lemma {:induction false} CountConcat(a: seq<int>, b: seq<int>, x: int)
    ensures Count(a + b, x) == Count(a, x) + Count(b, x)
    decreases |a|
  {
    if a == [] {
      assert a + b == b;
    } else {
      CountConcat(a[1..], b, x);
      assert (a + b)[1..] == a[1..] + b;
    }
  }

  /** A cart built by adds only holds the added ids, in call order. */
  function AddAll(cart: seq<int>, ids: seq<int>): (r: seq<int>)
    ensures r == cart + ids
    decreases |ids|
  {
    if ids == [] then cart
    else AddAll(Add(cart, ids[0]), ids[1..])
  }
}
