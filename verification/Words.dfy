/** Splitting identifiers into words, and the naming conventions built on it. ASCII only. */
module Words {
  type Letter = c: char | c as int < 128 witness 'a'

  type Ident = seq<Letter>

  predicate IsUpper(c: Letter) { 'A' <= c <= 'Z' }

  predicate IsLower(c: Letter) { 'a' <= c <= 'z' }

  predicate IsDigit(c: Letter) { '0' <= c <= '9' }

  predicate IsSep(c: Letter) { c == '_' || c == '-' }

  function ToLower(c: Letter): Letter { if IsUpper(c) then (c as int + 32) as char else c }

  function ToUpper(c: Letter): Letter { if IsLower(c) then (c as int - 32) as char else c }

  function Lower(s: Ident): (r: Ident)
    ensures |r| == |s| && forall i :: 0 <= i < |s| ==> r[i] == ToLower(s[i])
  {
    seq(|s|, i requires 0 <= i < |s| => ToLower(s[i]))
  }

  function Upper(s: Ident): (r: Ident)
    ensures |r| == |s| && forall i :: 0 <= i < |s| ==> r[i] == ToUpper(s[i])
  {
    seq(|s|, i requires 0 <= i < |s| => ToUpper(s[i]))
  }

  /** A new word starts at `t` when `prev` is the character before it. */
  predicate StartsAfter(prev: Letter, t: Ident) {
    t != [] && IsUpper(t[0]) &&
    (IsLower(prev) || IsDigit(prev) || (IsUpper(prev) && |t| > 1 && IsLower(t[1])))
  }

  /** The word that begins at `s[0]` is that one character. */
  predicate Breaks(s: Ident)
    requires s != []
  {
    |s| == 1 || IsSep(s[1]) || StartsAfter(s[0], s[1..])
  }

  /** The reference: words read off the text, each decision local to three characters. */
  function WordsOf(s: Ident): (r: seq<Ident>)
    ensures s != [] && !IsSep(s[0]) ==> r != []
  {
    if s == [] then []
    else if IsSep(s[0]) then WordsOf(s[1..])
    else
      var rest := WordsOf(s[1..]);
      if Breaks(s) then [[s[0]]] + rest else [[s[0]] + rest[0]] + rest[1..]
  }

  /** An unfinished word in front of the words of the remaining text. */
  function Glue(current: Ident, rest: Ident): seq<Ident> {
    if current == [] then WordsOf(rest)
    else if rest == [] || IsSep(rest[0]) || StartsAfter(current[|current| - 1], rest) then [current] + WordsOf(rest)
    else [current + WordsOf(rest)[0]] + WordsOf(rest)[1..]
  }

  /** A one-character word in progress is what the reference reads there. */
  lemma GlueOne(rest: Ident)
    requires rest != [] && !IsSep(rest[0])
    ensures Glue([rest[0]], rest[1..]) == WordsOf(rest)
  {
    assert |rest| > 1 ==> rest[1..][0] == rest[1];
  }

  lemma GlueMore(current: Ident, rest: Ident)
    requires rest != [] && !IsSep(rest[0]) && current != [] && !StartsAfter(current[|current| - 1], rest)
    ensures Glue(current, rest) == Glue(current + [rest[0]], rest[1..])
  {
    var more := WordsOf(rest[1..]);
    assert |rest| > 1 ==> rest[1..][0] == rest[1];
    var words := WordsOf(rest);
    if Breaks(rest) {
      assert words[0] == [rest[0]] && words[1..] == more;
    } else {
      assert words[0] == [rest[0]] + more[0] && words[1..] == more[1..];
      assert current + words[0] == current + [rest[0]] + more[0];
    }
  }

  /** One turn of the loop on character `rest[0]`: what is finished, and what is in progress. */
  function Turn(words: seq<Ident>, current: Ident, rest: Ident): (seq<Ident>, Ident)
    requires rest != []
  {
    var finished := if current == [] then words else words + [current];
    if IsSep(rest[0]) then (finished, [])
    else if current != [] && StartsAfter(current[|current| - 1], rest) then (finished, [rest[0]])
    else (words, current + [rest[0]])
  }

  lemma TurnKeeps(words: seq<Ident>, current: Ident, rest: Ident)
    requires rest != []
    ensures var (w, c) := Turn(words, current, rest);
            w + Glue(c, rest[1..]) == words + Glue(current, rest)
  {
    if !IsSep(rest[0]) {
      GlueOne(rest);
      if current == [] {
        assert current + [rest[0]] == [rest[0]];
      } else if !StartsAfter(current[|current| - 1], rest) {
        GlueMore(current, rest);
      }
    }
  }

  /** The splitter as coded: one pass, a list of finished words and a current one. */
  method IdentifierWords(value: Ident) returns (words: seq<Ident>)
    ensures words == WordsOf(value)
  {
    words := [];
    var current: Ident := [];
    assert value[0..] == value;
    for i := 0 to |value|
      invariant words + Glue(current, value[i..]) == WordsOf(value)
      invariant current != [] ==> i > 0 && current[|current| - 1] == value[i - 1]
    {
      ghost var rest := value[i..];
      ghost var turned := Turn(words, current, rest);
      TurnKeeps(words, current, rest);
      assert rest[1..] == value[i + 1..] && (|rest| > 1 <==> i + 1 < |value|);
      var character := value[i];
      if IsSep(character) {
        if current != [] {
          words := words + [current];
          current := [];
        }
        assert (words, current) == turned;
        continue;
      }
      var starts := IsUpper(character) && i > 0 &&
        (IsLower(value[i - 1]) || IsDigit(value[i - 1])
         || (IsUpper(value[i - 1]) && i + 1 < |value| && IsLower(value[i + 1])));
      assert current != [] ==> (starts <==> StartsAfter(current[|current| - 1], rest));
      if starts && current != [] {
        words := words + [current];
        current := [];
      }
      current := current + [character];
      assert [] + [character] == [character];
      assert (words, current) == turned;
    }
    if current != [] {
      words := words + [current];
    }
  }
}
