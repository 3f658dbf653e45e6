/** Hierarchical datastore keys: parsing a path into segments and printing it back. */
module Keys {
  datatype Key = Key(segments: seq<string>)

  const SLASH: char := '/'

  /** The characters `trim` removes: Unicode white space. */
  predicate IsWhite(c: char) {
    var x := c as int;
    0x9 <= x <= 0xD || x == 0x20 || x == 0x85 || x == 0xA0 || x == 0x1680 || 0x2000 <= x <= 0x200A
    || x == 0x2028 || x == 0x2029 || x == 0x202F || x == 0x205F || x == 0x3000
  }

  function TrimLeft(s: string): string {
    if s != [] && IsWhite(s[0]) then TrimLeft(s[1..]) else s
  }

  function TrimRight(s: string): string {
    if s != [] && IsWhite(s[|s| - 1]) then TrimRight(s[..|s| - 1]) else s
  }

  function Trim(s: string): string {
    TrimRight(TrimLeft(s))
  }

  /** The pieces between slashes; there is always at least one. */
  function Split(s: string): (r: seq<string>)
    ensures |r| > 0
  {
    if s == [] then [""]
    else if s[0] == SLASH then [""] + Split(s[1..])
    else var rest := Split(s[1..]); [[s[0]] + rest[0]] + rest[1..]
  }

  /** Drops empty pieces, trims the others, drops those that trimming empties. */
  function Clean(parts: seq<string>): seq<string> {
    if parts == [] then [] else Piece(parts[0]) + Clean(parts[1..])
  }

  function Piece(part: string): seq<string> {
    if part != "" && Trim(part) != "" then [Trim(part)] else []
  }

  function NewKey(path: string): Key {
    Key(Clean(Split(path)))
  }

  function Join(segments: seq<string>): string {
    if segments == [] then ""
    else if |segments| == 1 then segments[0]
    else segments[0] + [SLASH] + Join(segments[1..])
  }

  function AsStr(k: Key): string {
    if k.segments == [] then "/" else [SLASH] + Join(k.segments)
  }

  function Child(k: Key, name: string): Key {
    if Trim(name) == "" then k else Key(k.segments + [Trim(name)])
  }

  predicate IsDescendantOf(k: Key, other: Key) {
    |other.segments| < |k.segments| && k.segments[..|other.segments|] == other.segments
  }

  // ----------------------------------------------------------------- normal keys

  predicate NormalSegment(s: string) {
    s != "" && SLASH !in s && Trim(s) == s
  }

  /** What `NewKey` builds: non-empty, trimmed segments without a slash. */
  predicate Normal(k: Key) {
    forall i :: 0 <= i < |k.segments| ==> NormalSegment(k.segments[i])
  }

  lemma {:induction false} TrimLeftFacts(s: string)
    ensures TrimLeft(TrimLeft(s)) == TrimLeft(s)
    ensures forall c :: c in TrimLeft(s) ==> c in s
  {
    if s != [] && IsWhite(s[0]) {
      TrimLeftFacts(s[1..]);
    }
  }

  lemma {:induction false} TrimRightFacts(s: string)
    ensures TrimRight(TrimRight(s)) == TrimRight(s)
    ensures forall c :: c in TrimRight(s) ==> c in s
    ensures TrimLeft(s) == s ==> TrimLeft(TrimRight(s)) == TrimRight(s)
  {
    if s != [] && IsWhite(s[|s| - 1]) {
      var t := s[..|s| - 1];
      assert TrimLeft(s) == s ==> !IsWhite(s[0]) by { TrimLeftShrinks(s); }
      assert TrimLeft(s) == s ==> t != [] && t[0] == s[0];
      TrimRightFacts(t);
    }
  }

  lemma {:induction false} TrimLeftShrinks(s: string)
    ensures |TrimLeft(s)| <= |s|
    ensures s != [] && IsWhite(s[0]) ==> |TrimLeft(s)| < |s|
  {
    if s != [] && IsWhite(s[0]) {
      TrimLeftShrinks(s[1..]);
    }
  }

  lemma TrimFacts(s: string)
    ensures Trim(Trim(s)) == Trim(s)
    ensures forall c :: c in Trim(s) ==> c in s
  {
    TrimLeftFacts(s);
    TrimRightFacts(TrimLeft(s));
  }

  lemma {:induction false} PiecesHaveNoSlash(s: string)
    ensures forall i :: 0 <= i < |Split(s)| ==> SLASH !in Split(s)[i]
  {
    if s != [] {
      PiecesHaveNoSlash(s[1..]);
    }
  }

  lemma {:induction false} CleanIsNormal(parts: seq<string>)
    requires forall i :: 0 <= i < |parts| ==> SLASH !in parts[i]
    ensures Normal(Key(Clean(parts)))
  {
    if parts != [] {
      TrimFacts(parts[0]);
      CleanIsNormal(parts[1..]);
    }
  }

  lemma NewKeyIsNormal(path: string)
    ensures Normal(NewKey(path))
  {
    PiecesHaveNoSlash(path);
    CleanIsNormal(Split(path));
  }

  // ------------------------------------------------------------------ round trip

  lemma {:induction false} SplitFirst(segment: string, rest: string)
    requires SLASH !in segment
    ensures Split(segment + [SLASH] + rest) == [segment] + Split(rest)
  {
    var s := segment + [SLASH] + rest;
    if segment == "" {
      assert s[1..] == rest;
    } else {
      SplitFirst(segment[1..], rest);
      assert s[1..] == segment[1..] + [SLASH] + rest;
      assert segment == [segment[0]] + segment[1..];
    }
  }

  lemma {:induction false} SplitWhole(segment: string)
    requires SLASH !in segment
    ensures Split(segment) == [segment]
  {
    if segment != "" {
      SplitWhole(segment[1..]);
      assert segment == [segment[0]] + segment[1..];
    }
  }

  lemma {:induction false} SplitJoin(segments: seq<string>)
    requires segments != [] && forall i :: 0 <= i < |segments| ==> SLASH !in segments[i]
    ensures Split(Join(segments)) == segments
  {
    if |segments| == 1 {
      SplitWhole(segments[0]);
    } else {
      SplitFirst(segments[0], Join(segments[1..]));
      SplitJoin(segments[1..]);
      assert segments == [segments[0]] + segments[1..];
    }
  }

  lemma {:induction false} CleanOfNormal(segments: seq<string>)
    requires Normal(Key(segments))
    ensures Clean(segments) == segments
  {
    if segments != [] {
      CleanOfNormal(segments[1..]);
      assert NormalSegment(segments[0]);
    }
  }

  /** Printing and parsing again gives the key back. */
  lemma RoundTrip(k: Key)
    requires Normal(k)
    ensures NewKey(AsStr(k)) == k
  {
    var body := Join(k.segments);
    assert AsStr(k) == "" + [SLASH] + body;
    SplitFirst("", body);
    if k.segments == [] {
      assert Split(AsStr(k)) == ["", ""];
      assert Clean(["", ""]) == Clean([""]) by { assert ["", ""][1..] == [""]; }
      assert Clean([""]) == [] by { assert [""][1..] == []; }
    } else {
      SplitJoin(k.segments);
      CleanOfNormal(k.segments);
      assert ([""] + k.segments)[1..] == k.segments;
    }
  }

  /** Parsing normalizes once and for all, and the printed form identifies the key. */
  lemma PathsNormalize(path: string, other: string)
    ensures NewKey(AsStr(NewKey(path))) == NewKey(path)
    ensures AsStr(NewKey(path)) == AsStr(NewKey(other)) <==> NewKey(path) == NewKey(other)
  {
    NewKeyIsNormal(path);
    NewKeyIsNormal(other);
    RoundTrip(NewKey(path));
    RoundTrip(NewKey(other));
  }

  /** A child survives printing and parsing exactly when its name has no slash. */
  lemma ChildRoundTripsIff(k: Key, name: string)
    requires Normal(k)
    ensures NewKey(AsStr(Child(k, name))) == Child(k, name) <==> SLASH !in name
  {
    TrimFacts(name);
    TrimKeepsSlash(name);
    var c := Child(k, name);
    if SLASH !in name {
      RoundTrip(c);
    } else {
      assert SLASH in c.segments[|c.segments| - 1];
      NewKeyIsNormal(AsStr(c));
    }
  }

  lemma {:induction false} TrimLeftKeepsSlash(s: string)
    ensures SLASH in s ==> SLASH in TrimLeft(s)
  {
    if s != [] && IsWhite(s[0]) {
      TrimLeftKeepsSlash(s[1..]);
    }
  }

  lemma {:induction false} TrimRightKeepsSlash(s: string)
    ensures SLASH in s ==> SLASH in TrimRight(s)
  {
    if s != [] && IsWhite(s[|s| - 1]) {
      assert s == s[..|s| - 1] + [s[|s| - 1]];
      TrimRightKeepsSlash(s[..|s| - 1]);
    }
  }

  lemma TrimKeepsSlash(s: string)
    ensures SLASH in s ==> SLASH in Trim(s)
  {
    TrimLeftKeepsSlash(s);
    TrimRightKeepsSlash(TrimLeft(s));
  }

  // ------------------------------------------------------------- prefixes of paths

  /** The printed form of a non-root key, segment by segment. */
  function Path(segments: seq<string>): string {
    if segments == [] then "" else [SLASH] + segments[0] + Path(segments[1..])
  }

  lemma {:induction false} AsStrIsPath(segments: seq<string>)
    requires segments != []
    ensures [SLASH] + Join(segments) == Path(segments)
  {
    if |segments| > 1 {
      AsStrIsPath(segments[1..]);
    } else {
      assert segments[1..] == [];
    }
  }

  /** `p` lies on the way to `k`, except that its last segment may be cut short. */
  predicate LeadsTo(p: seq<string>, k: seq<string>) {
    p == [] || (|p| <= |k| && p[|p| - 1] <= k[|p| - 1] && forall i :: 0 <= i < |p| - 1 ==> p[i] == k[i])
  }

  lemma HeadPrefix<T>(x: seq<T>, y: seq<T>)
    requires x != []
    ensures x <= y <==> y != [] && x[0] == y[0] && x[1..] <= y[1..]
  {
    if y != [] && x[0] == y[0] && x[1..] <= y[1..] {
      assert x == [x[0]] + x[1..] && y == [y[0]] + y[1..];
    }
  }

  lemma {:induction false} PrefixOfSegment(a: string, b: string, rest: string)
    requires SLASH !in a && SLASH !in b && (rest == "" || rest[0] == SLASH)
    ensures a <= b + rest <==> a <= b
  {
    if a != "" {
      HeadPrefix(a, b + rest);
      if b == "" {
        assert b + rest == rest;
        assert a[0] in a;
      } else {
        HeadPrefix(a, b);
        assert (b + rest)[1..] == b[1..] + rest;
        PrefixOfSegment(a[1..], b[1..], rest);
      }
    }
  }

  /** Before a slash, segments must agree entirely. */
  lemma {:induction false} PrefixPastSegment(a: string, x: string, b: string, y: string)
    requires SLASH !in a && SLASH !in b && x != "" && x[0] == SLASH && (y == "" || y[0] == SLASH)
    ensures a + x <= b + y <==> a == b && x <= y
  {
    HeadPrefix(a + x, b + y);
    if a == "" || b == "" {
      assert a == "" ==> a + x == x;
      assert b == "" ==> b + y == y;
      assert (a != "" ==> a[0] in a) && (b != "" ==> b[0] in b);
    } else {
      assert (a + x)[1..] == a[1..] + x && (b + y)[1..] == b[1..] + y;
      PrefixPastSegment(a[1..], x, b[1..], y);
      assert a == [a[0]] + a[1..] && b == [b[0]] + b[1..];
    }
  }

  lemma {:induction false} PathPrefix(p: seq<string>, k: seq<string>)
    requires p != [] && Normal(Key(p)) && Normal(Key(k))
    ensures Path(p) <= Path(k) <==> LeadsTo(p, k)
  {
    if k != [] {
      var x, y := Path(p[1..]), Path(k[1..]);
      assert NormalSegment(p[0]) && NormalSegment(k[0]);
      HeadPrefix(Path(p), Path(k));
      assert Path(p)[1..] == p[0] + x && Path(k)[1..] == k[0] + y;
      if |p| == 1 {
        assert p[0] + x == p[0];
        PrefixOfSegment(p[0], k[0], y);
      } else {
        PrefixPastSegment(p[0], x, k[0], y);
        PathPrefix(p[1..], k[1..]);
        LeadsToTail(p, k);
      }
    }
  }

  lemma LeadsToTail(p: seq<string>, k: seq<string>)
    requires |p| > 1 && k != []
    ensures LeadsTo(p, k) <==> p[0] == k[0] && LeadsTo(p[1..], k[1..])
  {
    var p', k' := p[1..], k[1..];
    if LeadsTo(p', k') && p[0] == k[0] {
      forall i | 0 <= i < |p| - 1 ensures p[i] == k[i] {
        if i > 0 {
          assert p'[i - 1] == k'[i - 1];
        }
      }
    }
  }

  /** Which keys a textual prefix matches; the root matches all. */
  lemma TextPrefixIff(k: Key, p: Key)
    requires Normal(k) && Normal(p)
    ensures AsStr(p) <= AsStr(k) <==> LeadsTo(p.segments, k.segments)
  {
    if p.segments == [] {
    } else {
      AsStrIsPath(p.segments);
      PathPrefix(p.segments, k.segments);
      if k.segments != [] {
        AsStrIsPath(k.segments);
      } else {
        assert |AsStr(p)| > 1 by { assert NormalSegment(p.segments[0]); }
      }
    }
  }

  /** Every match is the key, a descendant, or under a sibling whose name extends the last segment. */
  lemma MatchesAreSubtreeOrSiblings(k: Key, p: Key)
    requires Normal(k) && Normal(p)
    ensures k == p || IsDescendantOf(k, p) ==> AsStr(p) <= AsStr(k)
    ensures AsStr(p) <= AsStr(k) && k != p && !IsDescendantOf(k, p) ==>
              var n := |p.segments| - 1;
              0 <= n < |k.segments| && k.segments[..n] == p.segments[..n]
              && p.segments[n] < k.segments[n]
  {
    TextPrefixIff(k, p);
    var n := |p.segments|;
    if n > 0 && LeadsTo(p.segments, k.segments) && k.segments[n - 1] == p.segments[n - 1] {
      assert k.segments[..n] == p.segments;
    }
    if k == p || IsDescendantOf(k, p) {
      assert forall i :: 0 <= i < n ==> k.segments[..n][i] == k.segments[i];
    }
  }
}
