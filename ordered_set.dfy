/**
 * An insertion-ordered collection without duplicates, modelled on a sequence.
 * This is the part of the JavaScript `Set` that the emitter relies on:
 * `add` appends an element at the tail unless it is already present,
 * `delete` removes the one entry of an element, and iteration visits the
 * entries in insertion order.
 */
module OrderedSet {

  /** Every element occurs at most once. */
  ghost predicate NoDup<T>(s: seq<T>) {
    forall i, j :: 0 <= i < j < |s| ==> s[i] != s[j]
  }

  lemma NoDupCons<T>(x: T, s: seq<T>)
    requires x !in s && NoDup(s)
    ensures NoDup([x] + s)
  {
    forall i, j | 0 <= i < j < |[x] + s|
      ensures ([x] + s)[i] != ([x] + s)[j]
    {
      if i == 0 {
        assert ([x] + s)[j] == s[j - 1];
      } else {
        assert ([x] + s)[i] == s[i - 1] && ([x] + s)[j] == s[j - 1];
      }
    }
  }

  lemma NoDupTail<T>(s: seq<T>)
    requires |s| > 0 && NoDup(s)
    ensures s[0] !in s[1..] && NoDup(s[1..])
  {
  }

  /** `Set.prototype.add`: the element is present afterwards, and it was
      appended at the tail exactly when it was absent before. */
  function Add<T(==)>(s: seq<T>, x: T): (r: seq<T>)
    ensures x in r
    ensures forall y :: y in r ==> y in s || y == x
    ensures forall y :: y in s ==> y in r
    ensures |s| <= |r| <= |s| + 1 && r[..|s|] == s
    ensures |r| == |s| <==> x in s
    ensures NoDup(s) ==> NoDup(r)
  {
    if x in s then s
    else
      assert (s + [x])[..|s|] == s;
      assert NoDup(s) ==> NoDup(s + [x]) by {
        if NoDup(s) {
          forall i, j | 0 <= i < j < |s + [x]| ensures (s + [x])[i] != (s + [x])[j] {
            assert (s + [x])[i] == s[i];
          }
        }
      }
      s + [x]
  }

  /** Position of the entry of `x`. */
  function IndexOf<T(==)>(s: seq<T>, x: T): (k: nat)
    requires x in s
    ensures k < |s| && s[k] == x && x !in s[..k]
  {
    if s[0] == x then 0
    else
      var k := IndexOf(s[1..], x) + 1;
      assert s[..k] == [s[0]] + s[1..][..k - 1];
      k
  }

  /** `Set.prototype.delete`: the first (in a duplicate-free sequence, the
      only) entry of `x` is removed; an absent element leaves `s` as it is. */
  function Delete<T(==)>(s: seq<T>, x: T): (r: seq<T>)
    ensures x !in s ==> r == s
    ensures x in s ==> |r| == |s| - 1
    ensures forall y :: y in r ==> y in s
    ensures forall y :: y in s && y != x ==> y in r
    ensures NoDup(s) ==> NoDup(r) && x !in r
  {
    if s == [] then []
    else if s[0] == x then
      assert NoDup(s) ==> NoDup(s[1..]) && x !in s[1..] by {
        if NoDup(s) { NoDupTail(s); }
      }
      s[1..]
    else
      var t := Delete(s[1..], x);
      assert forall y :: y in s ==> y == s[0] || y in s[1..];
      assert NoDup(s) ==> NoDup([s[0]] + t) by {
        if NoDup(s) { NoDupTail(s); NoDupCons(s[0], t); }
      }
      [s[0]] + t
  }

  /** Deleting keeps every other entry in its relative order: the result is
      `s` with exactly the entry at the position of `x` cut out. */
  lemma {:induction false} DeleteAt<T>(s: seq<T>, x: T)
    requires x in s
    ensures Delete(s, x) == s[..IndexOf(s, x)] + s[IndexOf(s, x) + 1..]
  {
    if s[0] != x {
      var t := s[1..];
      var k := IndexOf(t, x);
      calc {
        Delete(s, x);
        [s[0]] + Delete(t, x);
        { DeleteAt(t, x); }
        [s[0]] + (t[..k] + t[k + 1..]);
        { assert s[..k + 1] == [s[0]] + t[..k] && s[k + 2..] == t[k + 1..]; }
        s[..k + 1] + s[k + 2..];
        { assert IndexOf(s, x) == k + 1; }
        s[..IndexOf(s, x)] + s[IndexOf(s, x) + 1..];
      }
    }
  }

  /** Deleting an element other than the head keeps the head. */
  lemma DeleteCons<T>(y: T, s: seq<T>, x: T)
    requires y != x
    ensures Delete([y] + s, x) == [y] + Delete(s, x)
  {
    assert ([y] + s)[0] == y && ([y] + s)[1..] == s;
  }

  /** Deleting an element that does not occur in a prefix acts on the suffix only. */
  lemma {:induction false} DeleteAppend<T>(a: seq<T>, b: seq<T>, x: T)
    requires x !in a
    ensures Delete(a + b, x) == a + Delete(b, x)
  {
    if a == [] {
      assert a + b == b;
    } else {
      var t := a[1..];
      calc {
        Delete(a + b, x);
        { assert a + b == [a[0]] + (t + b); }
        Delete([a[0]] + (t + b), x);
        { DeleteCons(a[0], t + b, x); }
        [a[0]] + Delete(t + b, x);
        { DeleteAppend(t, b, x); }
        [a[0]] + (t + Delete(b, x));
        { assert a == [a[0]] + t; }
        a + Delete(b, x);
      }
    }
  }
}
