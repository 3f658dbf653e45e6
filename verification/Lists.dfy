/** Facts about lists of any elements: sums over them, repeats in them, lists of lists run together. */
module Lists {
  import opened Common

  // ------------------------------------------------------------------------ sums

  function Sum<T>(s: seq<T>, f: T -> nat): nat {
    if s == [] then 0 else f(s[0]) + Sum(s[1..], f)
  }

  lemma {:induction false} SumConcat<T>(a: seq<T>, b: seq<T>, f: T -> nat)
    ensures Sum(a + b, f) == Sum(a, f) + Sum(b, f)
  {
    if a == [] {
      assert a + b == b;
    } else {
      SumConcat(a[1..], b, f);
      assert (a + b)[1..] == a[1..] + b;
    }
  }

  /** Sums and counts of lists add up. */
  lemma CountConcat<T>(a: seq<T>, b: seq<T>, f: T -> nat, x: T)
    ensures Sum(a + b, f) == Sum(a, f) + Sum(b, f)
    ensures multiset(a + b)[x] == multiset(a)[x] + multiset(b)[x]
  {
    SumConcat(a, b, f);
  }

  lemma CountLast<T>(s: seq<T>, x: T)
    requires s != []
    ensures multiset(s)[x] == multiset(s[..|s| - 1])[x] + if s[|s| - 1] == x then 1 else 0
  {
    assert s == s[..|s| - 1] + [s[|s| - 1]];
  }

  /** A sum is at least that of two of its terms. */
  lemma {:induction false} SumOfTwo<T>(s: seq<T>, f: T -> nat, i: nat, j: nat)
    requires i < |s| && j < |s|
    ensures Sum(s, f) >= f(s[i])
    ensures i != j ==> Sum(s, f) >= f(s[i]) + f(s[j])
  {
    if i > 0 && j > 0 {
      SumOfTwo(s[1..], f, i - 1, j - 1);
    } else if i > 0 {
      SumOfTwo(s[1..], f, i - 1, i - 1);
    } else if j > 0 {
      SumOfTwo(s[1..], f, j - 1, j - 1);
    }
  }

  lemma {:induction false} SomeTerm<T>(s: seq<T>, f: T -> nat) returns (i: nat)
    requires Sum(s, f) >= 1
    ensures i < |s| && f(s[i]) > 0
  {
    if f(s[0]) > 0 {
      i := 0;
    } else {
      i := SomeTerm(s[1..], f);
      i := i + 1;
    }
  }

  /** A sum of two or more comes from one term or from two. */
  lemma {:induction false} TermsOfTwo<T>(s: seq<T>, f: T -> nat) returns (i: nat, j: nat)
    requires Sum(s, f) >= 2
    ensures i <= j < |s| && f(s[i]) > 0 && f(s[j]) > 0
    ensures i == j ==> f(s[i]) >= 2
  {
    if f(s[0]) >= 2 {
      i, j := 0, 0;
    } else if f(s[0]) == 1 {
      i := 0;
      j := SomeTerm(s[1..], f);
      j := j + 1;
    } else {
      i, j := TermsOfTwo(s[1..], f);
      i, j := i + 1, j + 1;
    }
  }

  // --------------------------------------------------------------------- repeats

  lemma CountOfTwo<T>(s: seq<T>, i: nat, j: nat)
    requires i < j < |s| && s[i] == s[j]
    ensures multiset(s)[s[i]] >= 2
  {
    assert s == s[..j] + [s[j]] + s[j + 1..];
    assert s[i] in s[..j];
  }

  lemma {:induction false} CountOfNone<T(!new)>(s: seq<T>)
    requires NoRepeats(s)
    ensures forall x :: multiset(s)[x] <= 1
  {
    if s != [] {
      CountOfNone(s[1..]);
      assert s == [s[0]] + s[1..];
    }
  }

  lemma NoRepeatsConcat<T(!new)>(a: seq<T>, b: seq<T>)
    ensures NoRepeats(a + b) <==> NoRepeats(a) && NoRepeats(b) && forall x :: x in a ==> x !in b
  {
    var s := a + b;
    if NoRepeats(s) {
      forall i, j | 0 <= i < j < |a| ensures a[i] != a[j] {
        assert s[i] != s[j];
      }
      forall i, j | 0 <= i < j < |b| ensures b[i] != b[j] {
        assert s[|a| + i] != s[|a| + j];
      }
      forall i, j | 0 <= i < |a| && 0 <= j < |b| ensures a[i] != b[j] {
        assert s[i] != s[|a| + j];
      }
    }
    if NoRepeats(a) && NoRepeats(b) && forall x :: x in a ==> x !in b {
      forall i, j | 0 <= i < j < |s| ensures s[i] != s[j] {
        if i < |a| <= j {
          assert s[i] in a && s[j] == b[j - |a|];
        }
      }
    }
  }

  lemma ReverseMember<T>(s: seq<T>, x: T)
    ensures x in Reverse(s) <==> x in s
  {
    if x in s {
      var i :| 0 <= i < |s| && s[i] == x;
      assert Reverse(s)[|s| - 1 - i] == x;
    }
  }

  // --------------------------------------------------------------- lists of lists

  function Flat<T>(parts: seq<seq<T>>): seq<T> {
    if parts == [] then [] else parts[0] + Flat(parts[1..])
  }

  lemma {:induction false} FlatPush<T>(parts: seq<seq<T>>, part: seq<T>)
    ensures Flat(parts + [part]) == Flat(parts) + part
  {
    var all := parts + [part];
    if parts == [] {
      assert all == [part] && Flat(all[1..]) == [];
    } else {
      FlatPush(parts[1..], part);
      assert all[1..] == parts[1..] + [part];
      Associate(parts[0], Flat(parts[1..]), part);
    }
  }

  lemma {:induction false} FlatMember<T>(parts: seq<seq<T>>, x: T)
    ensures x in Flat(parts) <==> exists i :: 0 <= i < |parts| && x in parts[i]
  {
    if parts != [] {
      FlatMember(parts[1..], x);
      assert forall i :: 1 <= i < |parts| ==> parts[i] == parts[1..][i - 1];
    }
  }

  ghost predicate AllOnce<T>(parts: seq<seq<T>>) {
    forall i :: 0 <= i < |parts| ==> NoRepeats(parts[i])
  }

  ghost predicate AllApart<T(!new)>(parts: seq<seq<T>>) {
    forall i, j, x :: 0 <= i < j < |parts| && x in parts[i] ==> x !in parts[j]
  }

  /** Run together, lists hold nothing twice exactly when none of them does and no two share an element. */
  lemma {:induction false} FlatRepeatsNothingIff<T(!new)>(parts: seq<seq<T>>)
    ensures NoRepeats(Flat(parts)) <==> AllOnce(parts) && AllApart(parts)
  {
    if parts != [] {
      var rest := parts[1..];
      assert forall i :: 0 <= i < |rest| ==> rest[i] == parts[i + 1];
      FlatRepeatsNothingIff(rest);
      NoRepeatsConcat(parts[0], Flat(rest));
      AllApartFront(parts);
      FirstApart(parts);
    }
  }

  lemma AllApartFront<T(!new)>(parts: seq<seq<T>>)
    requires parts != []
    ensures AllApart(parts)
            <==> AllApart(parts[1..]) && forall j, x :: 1 <= j < |parts| && x in parts[0] ==> x !in parts[j]
  {
    var rest := parts[1..];
    if AllApart(parts) {
      forall i, j, x | 0 <= i < j < |rest| && x in rest[i] ensures x !in rest[j] {
        assert x in parts[i + 1];
      }
    }
    if AllApart(rest) && forall j, x :: 1 <= j < |parts| && x in parts[0] ==> x !in parts[j] {
      forall i, j, x | 0 <= i < j < |parts| && x in parts[i] ensures x !in parts[j] {
        if i > 0 {
          assert x in rest[i - 1] && parts[j] == rest[j - 1];
        }
      }
    }
  }

  lemma FirstApart<T(!new)>(parts: seq<seq<T>>)
    requires parts != []
    ensures (forall x :: x in parts[0] ==> x !in Flat(parts[1..]))
            <==> forall j, x :: 1 <= j < |parts| && x in parts[0] ==> x !in parts[j]
  {
    var rest := parts[1..];
    forall x ensures x in Flat(rest) <==> exists j :: 1 <= j < |parts| && x in parts[j] {
      FlatMember(rest, x);
      if x in Flat(rest) {
        var i :| 0 <= i < |rest| && x in rest[i];
        assert x in parts[i + 1];
      }
      if j :| 1 <= j < |parts| && x in parts[j] {
        assert x in rest[j - 1];
      }
    }
  }
}
