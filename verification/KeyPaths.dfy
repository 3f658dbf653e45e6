/** What parsing, trimming, children and descendants of keys are, said without the functions that compute them. */
module KeyPaths {
  import opened Common
  import opened Keys

  /** The Unicode characters with the White_Space property. */
  const WHITE_SPACE: set<int> := {
    0x9, 0xA, 0xB, 0xC, 0xD, 0x20, 0x85, 0xA0, 0x1680,
    0x2000, 0x2001, 0x2002, 0x2003, 0x2004, 0x2005, 0x2006, 0x2007, 0x2008, 0x2009, 0x200A,
    0x2028, 0x2029, 0x202F, 0x205F, 0x3000
  }

  lemma WhiteIff(c: char)
    ensures IsWhite(c) <==> c as int in WHITE_SPACE
  {
  }

  predicate AllWhite(s: string) {
    forall i :: 0 <= i < |s| ==> s[i] as int in WHITE_SPACE
  }

  lemma {:induction false} TrimLeftIs(s: string) returns (i: nat)
    ensures i <= |s| && TrimLeft(s) == s[i..] && AllWhite(s[..i])
    ensures i < |s| ==> s[i] as int !in WHITE_SPACE
  {
    if s != [] && IsWhite(s[0]) {
      WhiteIff(s[0]);
      i := TrimLeftIs(s[1..]);
      assert s[..i + 1] == [s[0]] + s[1..][..i];
      i := i + 1;
    } else {
      i := 0;
      if s != [] {
        WhiteIff(s[0]);
      }
    }
  }

  lemma {:induction false} TrimRightIs(s: string) returns (j: nat)
    ensures j <= |s| && TrimRight(s) == s[..j] && AllWhite(s[j..])
    ensures j > 0 ==> s[j - 1] as int !in WHITE_SPACE
  {
    if s != [] && IsWhite(s[|s| - 1]) {
      var init := s[..|s| - 1];
      WhiteIff(s[|s| - 1]);
      j := TrimRightIs(init);
      assert s[j..] == init[j..] + [s[|s| - 1]] && init[..j] == s[..j];
    } else {
      j := |s|;
      if s != [] {
        WhiteIff(s[|s| - 1]);
      }
    }
  }

  /** Trimming cuts off white space at both ends, all of it and nothing else. */
  lemma TrimIs(s: string) returns (i: nat, j: nat)
    ensures i <= j <= |s| && Trim(s) == s[i..j]
    ensures AllWhite(s[..i]) && AllWhite(s[j..])
    ensures i < j ==> s[i] as int !in WHITE_SPACE && s[j - 1] as int !in WHITE_SPACE
  {
    i := TrimLeftIs(s);
    j := TrimRightIs(s[i..]);
    assert s[i..][..j] == s[i..i + j] && s[i..][j..] == s[i + j..];
    j := i + j;
  }

  /** A segment that parsing leaves alone: not empty, no slash, no white space at either end. */
  lemma NormalIff(s: string)
    ensures NormalSegment(s)
            <==> && s != "" && '/' !in s
                 && s[0] as int !in WHITE_SPACE && s[|s| - 1] as int !in WHITE_SPACE
  {
    var i, j := TrimIs(s);
    assert i > 0 ==> s[..i][0] == s[0] && s[0] as int in WHITE_SPACE;
    assert j < |s| ==> s[j..][|s| - j - 1] == s[|s| - 1] && s[|s| - 1] as int in WHITE_SPACE;
    assert s[0..|s|] == s && |Trim(s)| == j - i;
  }

  // ------------------------------------------------------------------- parsing

  lemma {:induction false} CleanConcat(a: seq<string>, b: seq<string>)
    ensures Clean(a + b) == Clean(a) + Clean(b)
  {
    if a == [] {
      assert a + b == b;
    } else {
      CleanConcat(a[1..], b);
      assert (a + b)[0] == a[0] && (a + b)[1..] == a[1..] + b;
      Associate(Piece(a[0]), Clean(a[1..]), Clean(b));
    }
  }

  lemma CleanOne(part: string)
    ensures Clean([part]) == if Trim(part) == "" then [] else [Trim(part)]
  {
    assert [part][1..] == [];
  }

  /** A text without a slash is one piece: its trimmed text, or nothing. */
  lemma ParsedAlone(piece: string)
    requires '/' !in piece
    ensures NewKey(piece).segments == if Trim(piece) == "" then [] else [Trim(piece)]
  {
    SplitWhole(piece);
    CleanOne(piece);
  }

  /** A path is parsed piece by piece: one more piece behind a slash adds its trimmed text, or nothing. */
  lemma ParsedByPieces(pieces: seq<string>, last: string)
    requires pieces != [] && forall i :: 0 <= i < |pieces| ==> '/' !in pieces[i]
    requires '/' !in last
    ensures NewKey(Join(pieces) + "/" + last).segments
            == NewKey(Join(pieces)).segments + if Trim(last) == "" then [] else [Trim(last)]
  {
    SplitPush(pieces, last);
    SplitJoin(pieces);
    CleanConcat(pieces, [last]);
    CleanOne(last);
  }

  lemma SplitPush(pieces: seq<string>, last: string)
    requires pieces != [] && forall i :: 0 <= i < |pieces| ==> '/' !in pieces[i]
    requires '/' !in last
    ensures Split(Join(pieces) + "/" + last) == pieces + [last]
  {
    JoinPush(pieces, last);
    SplitJoin(pieces + [last]);
  }

  lemma {:induction false} JoinPush(pieces: seq<string>, last: string)
    requires pieces != []
    ensures Join(pieces + [last]) == Join(pieces) + "/" + last
  {
    var all := pieces + [last];
    if |pieces| == 1 {
      assert all[1..] == [last] && all[0] == pieces[0];
    } else {
      JoinPush(pieces[1..], last);
      assert all[1..] == pieces[1..] + [last] && all[0] == pieces[0];
      assert pieces[0] + [SLASH] + (Join(pieces[1..]) + "/" + last)
          == pieces[0] + [SLASH] + Join(pieces[1..]) + "/" + last;
    }
  }

  // ------------------------------------------------------- children and descendants

  /** A child lies one step below its parent, under its trimmed name; a blank name gives the parent. */
  lemma ChildIs(k: Key, name: string)
    ensures AllWhite(name) ==> Child(k, name) == k
    ensures !AllWhite(name) ==>
              Child(k, name).segments == k.segments + [Trim(name)] && IsDescendantOf(Child(k, name), k)
  {
    var i, j := TrimIs(name);
    assert i == j ==> AllWhite(name) by {
      assert name == name[..i] + name[i..];
    }
    assert (k.segments + [Trim(name)])[..|k.segments|] == k.segments;
  }

  /** A name without a slash can as well be written behind the printed parent. */
  lemma ChildIsPath(k: Key, name: string)
    requires Normal(k) && '/' !in name
    ensures Child(k, name) == NewKey(AsStr(k) + "/" + name)
  {
    RoundTrip(k);
    var pieces := if k.segments == [] then ["", ""] else [""] + k.segments;
    PrintedPieces(k);
    ParsedByPieces(pieces, name);
  }

  lemma PrintedPieces(k: Key)
    requires Normal(k)
    ensures AsStr(k) == Join(if k.segments == [] then ["", ""] else [""] + k.segments)
  {
    if k.segments != [] {
      ConsTail("", k.segments);
    } else {
      assert ["", ""][1..] == [""];
      assert "" + [SLASH] + "" == "/";
    }
  }

  /** Descendants are the keys with more segments behind those of their ancestor. */
  lemma DescendantIff(k: Key, other: Key)
    ensures IsDescendantOf(k, other)
            <==> exists below: seq<string> :: below != [] && k.segments == other.segments + below
  {
    var n := |other.segments|;
    if IsDescendantOf(k, other) {
      assert k.segments == other.segments + k.segments[n..] && k.segments[n..] != [];
    }
    if below: seq<string> :| below != [] && k.segments == other.segments + below {
      assert k.segments[..n] == other.segments;
    }
  }
}
