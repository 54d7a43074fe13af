/**
 Counting and filtering over sequences: how many elements satisfy a test, and
 the elements that do, in order.
 */
module Seqs {

  /** Number of elements of `s` that satisfy `f`. */
  function Count<T>(s: seq<T>, f: T -> bool): (r: nat)
    ensures r <= |s|
  {
    if |s| == 0 then 0
    else
      var rest := Count(s[1..], f);
      (if f(s[0]) then 1 else 0) + rest
  }

  /** The count is 0 exactly when no element qualifies, and `|s|` exactly when all do. */
  lemma {:induction false} CountNoneOrAll<T>(s: seq<T>, f: T -> bool)
    ensures Count(s, f) == 0 <==> forall i :: 0 <= i < |s| ==> !f(s[i])
    ensures Count(s, f) == |s| <==> forall i :: 0 <= i < |s| ==> f(s[i])
  {
    if |s| > 0 {
      CountNoneOrAll(s[1..], f);
      assert forall i :: 1 <= i < |s| ==> s[i] == s[1..][i - 1];
    }
  }

  /** Counting distributes over concatenation. */
  lemma {:induction false} CountAppend<T>(a: seq<T>, b: seq<T>, f: T -> bool)
    ensures Count(a + b, f) == Count(a, f) + Count(b, f)
  {
    if |a| == 0 {
      assert a + b == b;
    } else {
      assert (a + b)[1..] == a[1..] + b;
      CountAppend(a[1..], b, f);
    }
  }

  /** Counting does not depend on the order of the elements. */
  lemma {:induction false} CountPermutation<T>(a: seq<T>, b: seq<T>, f: T -> bool)
    requires multiset(a) == multiset(b)
    ensures Count(a, f) == Count(b, f)
  {
    if |a| == 0 {
      assert |multiset(b)| == 0;
    } else {
      assert a[0] in multiset(b) by {
        assert a[0] in a;
      }
      var j :| 0 <= j < |b| && b[j] == a[0];
      var rest := b[..j] + b[j + 1..];
      assert b == b[..j] + [b[j]] + b[j + 1..];
      assert multiset(b) == multiset(rest) + multiset{a[0]};
      assert multiset(a) == multiset{a[0]} + multiset(a[1..]) by {
        assert a == [a[0]] + a[1..];
      }
      assert multiset(a[1..]) == multiset(a) - multiset{a[0]};
      assert multiset(rest) == multiset(b) - multiset{a[0]};
      CountPermutation(a[1..], rest, f);
      CountAppend(b[..j] + [b[j]], b[j + 1..], f);
      CountAppend(b[..j], [b[j]], f);
      CountAppend(b[..j], b[j + 1..], f);
    }
  }

  /**
   When `f` and `g` never hold together and `h` holds exactly when one of
   them does, the elements satisfying `h` are those satisfying `f` plus those
   satisfying `g`.
   */
  lemma {:induction false} CountDisjointUnion<T>(s: seq<T>, f: T -> bool, g: T -> bool, h: T -> bool)
    requires forall x :: !(f(x) && g(x))
    requires forall x :: h(x) <==> f(x) || g(x)
    ensures Count(s, f) + Count(s, g) == Count(s, h)
  {
    if |s| > 0 {
      CountDisjointUnion(s[1..], f, g, h);
    }
  }

  /** The property every element has. */
  predicate Any<T>(x: T) {
    true
  }

  /** A weaker property is met at least as often. */
  lemma {:induction false} CountMonotone<T>(s: seq<T>, f: T -> bool, g: T -> bool)
    requires forall x :: f(x) ==> g(x)
    ensures Count(s, f) <= Count(s, g)
  {
    if |s| > 0 {
      CountMonotone(s[1..], f, g);
    }
  }

  /** The elements of `s` on which `f` gives `want`, in their original order. */
  function Select<T>(s: seq<T>, f: T -> bool, want: bool): (r: seq<T>)
    ensures |r| == if want then Count(s, f) else |s| - Count(s, f)
    ensures forall i :: 0 <= i < |r| ==> f(r[i]) == want && r[i] in s
    ensures forall i :: 0 <= i < |s| && f(s[i]) == want ==> s[i] in r
  {
    if |s| == 0 then []
    else
      var rest := Select(s[1..], f, want);
      assert forall i :: 1 <= i < |s| ==> s[i] == s[1..][i - 1];
      if f(s[0]) == want then [s[0]] + rest else rest
  }

  /** `a` can be obtained from `b` by deleting elements, keeping the order of the rest. */
  predicate IsSubsequence<T(==)>(a: seq<T>, b: seq<T>)
    decreases |b|
  {
    if |a| == 0 then true
    else if |b| == 0 then false
    else (a[0] == b[0] && IsSubsequence(a[1..], b[1..])) || IsSubsequence(a, b[1..])
  }

  /** Selecting keeps the original order. */
  lemma {:induction false} SelectIsSubsequence<T>(s: seq<T>, f: T -> bool, want: bool)
    ensures IsSubsequence(Select(s, f, want), s)
  {
    if |s| > 0 {
      SelectIsSubsequence(s[1..], f, want);
      var rest := Select(s[1..], f, want);
      if f(s[0]) == want {
        assert ([s[0]] + rest)[1..] == rest;
      }
    }
  }

  /** The two selections of `s` by `f` split it: together they hold every element exactly once. */
  lemma {:induction false} SelectSplits<T>(s: seq<T>, f: T -> bool)
    ensures multiset(Select(s, f, true)) + multiset(Select(s, f, false)) == multiset(s)
  {
    if |s| > 0 {
      SelectSplits(s[1..], f);
      assert multiset(s) == multiset{s[0]} + multiset(s[1..]) by {
        assert s == [s[0]] + s[1..];
      }
      var kept, dropped := Select(s[1..], f, true), Select(s[1..], f, false);
      if f(s[0]) {
        SelectHead(s, f, true);
        assert multiset(Select(s, f, true)) == multiset{s[0]} + multiset(kept);
        assert Select(s, f, false) == dropped;
      } else {
        SelectHead(s, f, false);
        assert Select(s, f, true) == kept;
        assert multiset(Select(s, f, false)) == multiset{s[0]} + multiset(dropped);
      }
    }
  }

  lemma SelectHead<T>(s: seq<T>, f: T -> bool, want: bool)
    requires |s| > 0
    ensures multiset(Select(s, f, want))
         == (if f(s[0]) == want then multiset{s[0]} else multiset{}) + multiset(Select(s[1..], f, want))
  {
    if f(s[0]) == want {
      assert Select(s, f, want) == [s[0]] + Select(s[1..], f, want);
    }
  }

  /** No two positions hold the same value. */
  predicate Distinct<T(==)>(s: seq<T>) {
    forall i, j :: 0 <= i < j < |s| ==> s[i] != s[j]
  }
}
