/** Offset and limit over any list: the window they select, and the scan loop that computes it. */
module Paging {
  import opened Common

  function Drop<T>(s: seq<T>, n: nat): seq<T> {
    if n <= |s| then s[n..] else []
  }

  function Take<T>(s: seq<T>, n: nat): seq<T> {
    if n <= |s| then s[..n] else s
  }

  /** How many elements a limit lets through: the loop pushes before it looks at the limit. */
  function Cap(n: nat): nat { if n == 0 then 1 else n }

  function Window<T>(s: seq<T>, offset: nat, limit: Option<nat>): seq<T> {
    match limit
    case None => Drop(s, offset)
    case Some(n) => Take(Drop(s, offset), Cap(n))
  }

  /** The part of a list before the first element that does not hit. */
  function TakeWhile<T>(s: seq<T>, hit: T -> bool): seq<T> {
    if s == [] || !hit(s[0]) then [] else [s[0]] + TakeWhile(s[1..], hit)
  }

  function Map<T, U>(s: seq<T>, f: T -> U): (r: seq<U>)
    ensures |r| == |s| && forall i :: 0 <= i < |s| ==> r[i] == f(s[i])
  {
    seq(|s|, i requires 0 <= i < |s| => f(s[i]))
  }

  lemma MapNext<T, U>(s: seq<T>, f: T -> U, lo: nat, hi: nat)
    requires lo <= hi < |s|
    ensures Map(s[lo..hi + 1], f) == Map(s[lo..hi], f) + [f(s[hi])]
  {
  }

  // -------------------------------------------------------------------- the loop

  /** The first `i` elements all hit. */
  predicate HitsUpTo<T>(s: seq<T>, hit: T -> bool, i: nat)
    requires i <= |s|
  {
    i == 0 || (HitsUpTo(s, hit, i - 1) && hit(s[i - 1]))
  }

  lemma {:induction false} HitsAreTaken<T>(s: seq<T>, hit: T -> bool, i: nat)
    requires i <= |s| && HitsUpTo(s, hit, i)
    ensures s[..i] + TakeWhile(s[i..], hit) == TakeWhile(s, hit)
  {
    if i == 0 {
      assert s[0..] == s && s[..0] == [];
    } else {
      HitsAreTaken(s, hit, i - 1);
      assert s[i - 1..][1..] == s[i..];
      Associate(s[..i - 1], [s[i - 1]], TakeWhile(s[i..], hit));
      assert s[..i - 1] + [s[i - 1]] == s[..i];
    }
  }

  /** Wherever the loop stops, what it picked is the window. */
  lemma ScanEnds<T>(s: seq<T>, hit: T -> bool, offset: nat, limit: Option<nat>, i: nat, skipped: nat)
    requires skipped <= i <= |s| && HitsUpTo(s, hit, i) && skipped == (if i <= offset then i else offset)
    requires limit.Some? ==> i - skipped <= Cap(limit.value)
    requires i == |s| || !hit(s[i]) || (limit.Some? && i - skipped == Cap(limit.value))
    ensures s[skipped..i] == Window(TakeWhile(s, hit), offset, limit)
  {
    var all := TakeWhile(s, hit);
    HitsAreTaken(s, hit, i);
    assert i <= |all| && all[..i] == s[..i] && (i == |s| || !hit(s[i]) ==> |all| == i);
    WindowStops(all, offset, limit, i, skipped);
    assert s[skipped..i] == s[..i][skipped..];
  }

  lemma WindowStops<T>(all: seq<T>, offset: nat, limit: Option<nat>, i: nat, skipped: nat)
    requires skipped <= i <= |all| && skipped == (if i <= offset then i else offset)
    requires limit.Some? ==> i - skipped <= Cap(limit.value)
    requires i == |all| || (limit.Some? && i - skipped == Cap(limit.value))
    ensures all[..i][skipped..] == Window(all, offset, limit)
  {
  }

  /** The scan loop: skip `offset` hits, then push until the limit or a miss. */
  method Scan<T, U>(s: seq<T>, hit: T -> bool, f: T -> U, offset: nat, limit: Option<nat>) returns (items: seq<U>)
    ensures items == Map(Window(TakeWhile(s, hit), offset, limit), f)
  {
    items := [];
    var count, skipped, i := 0, 0, 0;
    while i < |s|
      invariant skipped <= i <= |s| && HitsUpTo(s, hit, i)
      invariant skipped == (if i <= offset then i else offset)
      invariant items == Map(s[skipped..i], f) && count == i - skipped
      invariant limit.Some? ==> count < Cap(limit.value)
    {
      if !hit(s[i]) {
        break;
      }
      if skipped < offset {
        skipped := skipped + 1;
        i := i + 1;
        continue;
      }
      MapNext(s, f, skipped, i);
      items := items + [f(s[i])];
      count := count + 1;
      i := i + 1;
      if limit.Some? && count >= limit.value {
        break;
      }
    }
    ScanEnds(s, hit, offset, limit, i, skipped);
  }

  /** How many of `rest` a limit lets through. */
  function Through(rest: nat, limit: Option<nat>): nat {
    if limit.None? then rest
    else if limit.value == 0 then (if rest == 0 then 0 else 1)
    else if rest < limit.value then rest else limit.value
  }

  /** `page` shows as many of `all` as the limit lets through past the offset, in place or back to front. */
  ghost predicate Shows<T>(all: seq<T>, page: seq<T>, offset: nat, limit: Option<nat>, desc: bool) {
    && |page| == Through(if offset <= |all| then |all| - offset else 0, limit)
    && forall i :: 0 <= i < |page| ==> page[i] == all[if desc then offset + |page| - 1 - i else offset + i]
  }

  lemma WindowShows<T, U>(s: seq<T>, f: T -> U, offset: nat, limit: Option<nat>, desc: bool)
    ensures var page := Window(s, offset, limit);
            Shows(Map(s, f), Map(if desc then Reverse(page) else page, f), offset, limit, desc)
  {
    var page := Window(s, offset, limit);
    var shown := if desc then Reverse(page) else page;
    WindowSize(s, offset, limit);
    var c := WindowIsSlice(s, offset, limit);
    forall i | 0 <= i < |page|
      ensures Map(shown, f)[i] == Map(s, f)[if desc then offset + |page| - 1 - i else offset + i]
    {
      assert shown[i] == page[if desc then |page| - 1 - i else i];
    }
  }

  lemma WindowSize<T>(s: seq<T>, offset: nat, limit: Option<nat>)
    ensures |Window(s, offset, limit)| == Through(if offset <= |s| then |s| - offset else 0, limit)
  {
  }

  // ----------------------------------------------------------- consecutive pages

  /** A limit is kept exactly when it is not zero or nothing is left after the offset. */
  lemma LimitKeptIff<T>(s: seq<T>, offset: nat, n: nat)
    ensures |Window(s, offset, Some(n))| <= n <==> n > 0 || |s| <= offset
  {
  }

  lemma TakeMore<T>(s: seq<T>, n: nat, k: nat)
    ensures Take(s, n + k) == Take(s, n) + Take(Drop(s, n), k)
  {
  }

  /** A page, and what follows it, split what follows the offset. */
  lemma WindowParts<T, U>(s: seq<T>, f: T -> U, offset: nat, n: nat)
    requires n > 0
    ensures var all := Map(Window(s, offset, None), f);
            && Map(Window(s, offset, Some(n)), f) == Take(all, n)
            && Map(Window(s, offset + n, None), f) == Drop(all, n)
  {
    assert Drop(s, offset + n) == Drop(Drop(s, offset), n);
  }

  // ------------------------------------------------------------ descending pages

  lemma MapReverse<T, U>(s: seq<T>, f: T -> U)
    ensures Map(Reverse(s), f) == Reverse(Map(s, f))
  {
  }

  lemma WindowIsSlice<T>(s: seq<T>, offset: nat, limit: Option<nat>) returns (c: nat)
    ensures c == |Window(s, offset, limit)|
    ensures c > 0 ==> offset + c <= |s| && Window(s, offset, limit) == s[offset..offset + c]
  {
    c := |Window(s, offset, limit)|;
  }

  lemma SliceOfReverse<T>(s: seq<T>, offset: nat, c: nat)
    requires NoRepeats(s) && 0 < c && offset + c <= |s|
    ensures Reverse(s[offset..offset + c]) == Reverse(s)[offset..offset + c] <==> 2 * offset + c == |s|
  {
    var a, b := Reverse(s[offset..offset + c]), Reverse(s)[offset..offset + c];
    assert forall i | 0 <= i < c :: a[i] == s[offset + c - 1 - i];
    assert forall i | 0 <= i < c :: b[i] == s[|s| - 1 - offset - i];
    if a == b {
      assert a[0] == b[0];
    }
  }

  /** Nothing lies past the offset, the page is everything, or it lies in the middle of `size` elements. */
  predicate Centred(size: nat, offset: nat, limit: Option<nat>) {
    || size <= offset
    || (offset == 0 && (limit.None? || size <= Cap(limit.value)))
    || (limit.Some? && 2 * offset + Cap(limit.value) == size)
  }

  /** Exactly when reversing a page of a list gives the page of the reversed list. */
  lemma DescendingPageIff<T>(s: seq<T>, offset: nat, limit: Option<nat>)
    requires NoRepeats(s)
    ensures Reverse(Window(s, offset, limit)) == Window(Reverse(s), offset, limit) <==> Centred(|s|, offset, limit)
  {
    var c := WindowIsSlice(s, offset, limit);
    var d := WindowIsSlice(Reverse(s), offset, limit);
    assert c == d;
    if c > 0 {
      SliceOfReverse(s, offset, c);
    }
  }

  /** Two elements, a limit of one: the page of the descending list is not the one that is returned. */
  lemma DescendingPageDiffers<T>(a: T, b: T)
    requires a != b
    ensures Reverse(Window([a, b], 0, Some(1))) != Window(Reverse([a, b]), 0, Some(1))
  {
    DescendingPageIff([a, b], 0, Some(1));
  }

  lemma PageMembers<T>(s: seq<T>, offset: nat, limit: Option<nat>)
    ensures forall x :: x in Window(s, offset, limit) ==> x in s
    ensures forall x :: x in Reverse(s) ==> x in s
  {
    var c := WindowIsSlice(s, offset, limit);
  }
}
