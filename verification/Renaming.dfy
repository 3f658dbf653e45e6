/** Naming conventions: what the word splitter keeps, and which names survive a round trip. */
module Renaming {
  import opened Lists
  import opened Words

  function Join(words: seq<Ident>, sep: Letter): Ident {
    if words == [] then [] else if |words| == 1 then words[0] else words[0] + [sep] + Join(words[1..], sep)
  }

  function Capitalize(word: Ident): (r: Ident)
    ensures |r| == |word|
  {
    if word == [] then [] else [ToUpper(word[0])] + Lower(word[1..])
  }

  function CapitalizeAll(words: seq<Ident>): (r: seq<Ident>)
    ensures |r| == |words|
  {
    if words == [] then [] else [Capitalize(words[0])] + CapitalizeAll(words[1..])
  }

  function LowerAll(words: seq<Ident>): (r: seq<Ident>)
    ensures |r| == |words|
  {
    if words == [] then [] else [Lower(words[0])] + LowerAll(words[1..])
  }

  function PascalCase(words: seq<Ident>): Ident {
    Flat(CapitalizeAll(words))
  }

  function CamelCase(words: seq<Ident>): Ident {
    if words == [] then [] else Lower(words[0]) + Flat(CapitalizeAll(words[1..]))
  }

  /** The `rename_all` conventions by name; any other name leaves identifiers alone. */
  datatype Rule = Lowercase | Uppercase | Pascal | Camel | Snake | ScreamingSnake | Kebab | ScreamingKebab | Other

  function ApplyRenameAll(value: Ident, rule: Rule): Ident {
    var words := WordsOf(value);
    match rule
    case Lowercase => Lower(Flat(words))
    case Uppercase => Upper(Flat(words))
    case Pascal => PascalCase(words)
    case Camel => CamelCase(words)
    case Snake => Lower(Join(words, '_'))
    case ScreamingSnake => Upper(Join(words, '_'))
    case Kebab => Lower(Join(words, '-'))
    case ScreamingKebab => Upper(Join(words, '-'))
    case Other => value
  }

  function ToSnakeCase(value: Ident): Ident {
    Lower(Join(WordsOf(value), '_'))
  }

  // -------------------------------------------------------------- nothing is lost

  function Strip(s: Ident): Ident {
    if s == [] then [] else (if IsSep(s[0]) then [] else [s[0]]) + Strip(s[1..])
  }

  predicate ProperWord(w: Ident) {
    w != [] && forall i :: 0 <= i < |w| ==> !IsSep(w[i])
  }

  /** The words are non-empty, hold no separator, and spell the identifier without its separators. */
  lemma {:induction false} WordsSpellIdentifier(s: Ident)
    ensures Flat(WordsOf(s)) == Strip(s)
    ensures forall w :: w in WordsOf(s) ==> ProperWord(w)
  {
    if s != [] {
      WordsSpellIdentifier(s[1..]);
      var rest := WordsOf(s[1..]);
      if !IsSep(s[0]) {
        if Breaks(s) {
          assert ([[s[0]]] + rest)[1..] == rest;
        } else {
          assert rest[0] in rest;
          assert ([[s[0]] + rest[0]] + rest[1..])[1..] == rest[1..];
          assert [s[0]] + rest[0] + Flat(rest[1..]) == [s[0]] + (rest[0] + Flat(rest[1..]));
        }
      }
    }
  }

  // --------------------------------------------------------- words that stand apart

  /** Words whose tails hold no capital: nothing starts inside them. */
  predicate Solid(w: Ident) {
    ProperWord(w) && forall i :: 1 <= i < |w| ==> !IsUpper(w[i])
  }

  /** A solid word is read whole, and joined to what follows unless something starts there. */
  lemma {:induction false} SolidThen(w: Ident, t: Ident)
    requires Solid(w)
    ensures t == [] || IsSep(t[0]) || StartsAfter(w[|w| - 1], t) ==> WordsOf(w + t) == [w] + WordsOf(t)
    ensures t != [] && !IsSep(t[0]) && !StartsAfter(w[|w| - 1], t) ==>
              WordsOf(w + t) == [w + WordsOf(t)[0]] + WordsOf(t)[1..]
  {
    var s := w + t;
    if |w| == 1 {
      assert s[1..] == t;
      assert t != [] ==> s[1] == t[0];
      assert w == [s[0]];
    } else {
      SolidThen(w[1..], t);
      assert s[1..] == w[1..] + t && s[1] == w[1];
      assert !Breaks(s);
      assert w == [w[0]] + w[1..];
      if t != [] && !IsSep(t[0]) {
        assert [w[0]] + (w[1..] + WordsOf(t)[0]) == w + WordsOf(t)[0];
      }
    }
  }

  // ---------------------------------------------------------------- idempotence

  /** Lowercase words joined by a separator are read back. */
  lemma {:induction false} JoinedWordsReadBack(words: seq<Ident>, sep: Letter)
    requires IsSep(sep) && forall w :: w in words ==> ProperWord(w) && Lower(w) == w
    ensures WordsOf(Join(words, sep)) == words
  {
    if words != [] {
      var w := words[0];
      assert w in words;
      LowerIsSolid(w);
      if |words| == 1 {
        SolidThen(w, []);
        assert w + [] == w;
      } else {
        var rest := Join(words[1..], sep);
        JoinedWordsReadBack(words[1..], sep);
        SolidThen(w, [sep] + rest);
        assert ([sep] + rest)[1..] == rest;
        assert w + [sep] + rest == w + ([sep] + rest);
      }
    }
  }

  lemma LowerIsSolid(w: Ident)
    requires ProperWord(w) && Lower(w) == w
    ensures Solid(w)
  {
    forall i | 0 <= i < |w| ensures !IsUpper(w[i]) {
      assert w[i] == ToLower(w[i]);
    }
  }

  lemma {:induction false} LowerOfJoin(words: seq<Ident>, sep: Letter)
    requires IsSep(sep)
    ensures Lower(Join(words, sep)) == Join(LowerAll(words), sep)
  {
    if |words| > 1 {
      LowerOfJoin(words[1..], sep);
      assert LowerAll(words)[1..] == LowerAll(words[1..]);
      assert Lower(words[0] + [sep] + Join(words[1..], sep)) == Lower(words[0]) + [sep] + Lower(Join(words[1..], sep));
    }
  }

  lemma LowerKeepsProper(w: Ident)
    requires ProperWord(w)
    ensures ProperWord(Lower(w)) && Lower(Lower(w)) == Lower(w)
  {
    var v := Lower(w);
    forall i | 0 <= i < |v| ensures !IsSep(v[i]) && ToLower(v[i]) == v[i] {
      assert v[i] == ToLower(w[i]);
    }
    assert Lower(v) == v;
  }

  lemma {:induction false} LowerAllIsLower(words: seq<Ident>)
    requires forall w :: w in words ==> ProperWord(w)
    ensures forall w :: w in LowerAll(words) ==> ProperWord(w) && Lower(w) == w
    ensures LowerAll(LowerAll(words)) == LowerAll(words)
  {
    if words != [] {
      assert words == [words[0]] + words[1..];
      LowerAllIsLower(words[1..]);
      LowerKeepsProper(words[0]);
      assert LowerAll(words)[1..] == LowerAll(words[1..]);
    }
  }

  /** Converting to snake case a second time changes nothing. */
  lemma SnakeCaseIsIdempotent(s: Ident)
    ensures ToSnakeCase(ToSnakeCase(s)) == ToSnakeCase(s) == ApplyRenameAll(s, Snake)
  {
    var words := WordsOf(s);
    WordsSpellIdentifier(s);
    LowerOfJoin(words, '_');
    LowerAllIsLower(words);
    JoinedWordsReadBack(LowerAll(words), '_');
    LowerOfJoin(LowerAll(words), '_');
  }

  /** Kebab case keeps the words too, and the capital forms differ from the others only in case. */
  lemma RulesKeepWords(s: Ident)
    ensures WordsOf(ApplyRenameAll(s, Snake)) == WordsOf(ApplyRenameAll(s, Kebab)) == LowerAll(WordsOf(s))
    ensures Lower(ApplyRenameAll(s, ScreamingSnake)) == ApplyRenameAll(s, Snake)
    ensures Lower(ApplyRenameAll(s, ScreamingKebab)) == ApplyRenameAll(s, Kebab)
    ensures Lower(ApplyRenameAll(s, Uppercase)) == ApplyRenameAll(s, Lowercase) == Lower(Strip(s))
  {
    var words := WordsOf(s);
    WordsSpellIdentifier(s);
    LowerAllIsLower(words);
    LowerOfJoin(words, '_');
    LowerOfJoin(words, '-');
    JoinedWordsReadBack(LowerAll(words), '_');
    JoinedWordsReadBack(LowerAll(words), '-');
    LowerOfUpper(Join(words, '_'));
    LowerOfUpper(Join(words, '-'));
    LowerOfUpper(Flat(words));
  }

  lemma LowerOfUpper(s: Ident)
    ensures Lower(Upper(s)) == Lower(s)
  {
    forall i | 0 <= i < |s| ensures Lower(Upper(s))[i] == Lower(s)[i] {
      assert Upper(s)[i] == ToUpper(s[i]);
    }
  }

  // ------------------------------------------------------------------ round trips

  /** A word of lowercase letters and digits. */
  predicate PlainWord(w: Ident) {
    w != [] && forall i :: 0 <= i < |w| ==> IsLower(w[i]) || IsDigit(w[i])
  }

  /** A capital starts every word but the first. */
  ghost predicate AllCut(words: seq<Ident>) {
    |words| <= 1 ||
    (words[0] != [] && StartsAfter(words[0][|words[0]| - 1], Flat(words[1..])) && AllCut(words[1..]))
  }

  /** Solid words run together are read back as they were, or as fewer. */
  lemma {:induction false} RunTogether(words: seq<Ident>)
    requires forall w :: w in words ==> Solid(w)
    ensures AllCut(words) ==> WordsOf(Flat(words)) == words
    ensures !AllCut(words) ==> |WordsOf(Flat(words))| < |words|
    ensures |WordsOf(Flat(words))| <= |words|
  {
    if words != [] {
      var w, t := words[0], Flat(words[1..]);
      assert words == [w] + words[1..];
      assert w in words;
      RunTogether(words[1..]);
      SolidThen(w, t);
      if |words| > 1 {
        assert words[1] in words && words[1..][0] == words[1];
        assert t == words[1] + Flat(words[1..][1..]);
      }
    }
  }

  lemma {:induction false} JoinLength(words: seq<Ident>, sep: Letter)
    ensures |Join(words, sep)| == |Flat(words)| + (if words == [] then 0 else |words| - 1)
  {
    if words != [] {
      JoinLength(words[1..], sep);
    }
  }

  lemma {:induction false} FlatLength(words: seq<Ident>, others: seq<Ident>)
    requires |words| == |others| && forall i :: 0 <= i < |words| ==> |words[i]| == |others[i]|
    ensures |Flat(words)| == |Flat(others)|
  {
    if words != [] {
      FlatLength(words[1..], others[1..]);
    }
  }

  lemma {:induction false} StripOfFlat(words: seq<Ident>)
    requires forall w :: w in words ==> ProperWord(w)
    ensures Strip(Flat(words)) == Flat(words)
  {
    StripNothing(Flat(words)) by {
      FlatHasNoSep(words);
    }
  }

  lemma {:induction false} FlatHasNoSep(words: seq<Ident>)
    requires forall w :: w in words ==> ProperWord(w)
    ensures forall i :: 0 <= i < |Flat(words)| ==> !IsSep(Flat(words)[i])
  {
    if words != [] {
      assert words == [words[0]] + words[1..];
      assert words[0] in words;
      FlatHasNoSep(words[1..]);
    }
  }

  lemma {:induction false} StripNothing(s: Ident)
    requires forall i :: 0 <= i < |s| ==> !IsSep(s[i])
    ensures Strip(s) == s
  {
    if s != [] {
      StripNothing(s[1..]);
    }
  }

  /** Run together, words give back the snake name exactly when a capital starts each of them. */
  lemma SnakeOfFlat(words: seq<Ident>, plain: seq<Ident>)
    requires words != [] && |words| == |plain| && LowerAll(words) == plain
    requires forall w :: w in words ==> Solid(w)
    ensures ToSnakeCase(Flat(words)) == Join(plain, '_') <==> AllCut(words)
  {
    var s := Flat(words);
    RunTogether(words);
    if AllCut(words) {
      LowerOfJoin(words, '_');
    } else {
      WordsSpellIdentifier(s);
      StripOfFlat(words);
      JoinLength(WordsOf(s), '_');
      JoinLength(plain, '_');
      LowerAllLengths(words);
      FlatLength(words, plain);
    }
  }

  lemma {:induction false} LowerAllLengths(words: seq<Ident>)
    ensures forall i :: 0 <= i < |words| ==> LowerAll(words)[i] == Lower(words[i])
  {
    if words != [] {
      LowerAllLengths(words[1..]);
      assert words == [words[0]] + words[1..];
    }
  }

  predicate AllPlain(words: seq<Ident>) {
    forall i :: 0 <= i < |words| ==> PlainWord(words[i])
  }

  /**
   * The words after `prev` can be told apart once capitalized: each starts
   * with a letter, and after a word that is a lone capital its second
   * character is a letter too.
   */
  predicate CapitalsFit(prev: Ident, capital: bool, words: seq<Ident>)
    requires PlainWord(prev) && AllPlain(words)
    decreases |words|
  {
    words == [] || (Fits(prev, capital, words[0]) && CapitalsFit(words[0], true, words[1..]))
  }

  predicate Fits(prev: Ident, capital: bool, w: Ident)
    requires PlainWord(prev) && PlainWord(w)
  {
    IsLower(w[0]) && (capital && |prev| == 1 && IsLower(prev[0]) ==> |w| > 1 && IsLower(w[1]))
  }

  lemma PlainIsLower(w: Ident)
    requires PlainWord(w)
    ensures ProperWord(w) && Lower(w) == w
  {
    assert forall i :: 0 <= i < |w| ==> Lower(w)[i] == w[i];
  }

  lemma CapitalizedAt(w: Ident)
    requires PlainWord(w)
    ensures Capitalize(w)[0] == ToUpper(w[0]) && forall i :: 1 <= i < |w| ==> Capitalize(w)[i] == w[i]
  {
    var tail := w[1..];
    forall i | 1 <= i < |w| ensures Capitalize(w)[i] == w[i] {
      assert Capitalize(w)[i] == Lower(tail)[i - 1] == ToLower(tail[i - 1]);
    }
  }

  lemma CapitalizedFacts(w: Ident)
    requires PlainWord(w)
    ensures Solid(Capitalize(w)) && Lower(Capitalize(w)) == w
  {
    CapitalizedAt(w);
    var v := Capitalize(w);
    forall i | 0 <= i < |v| ensures !IsSep(v[i]) && ToLower(v[i]) == w[i] {
      assert i > 0 ==> v[i] == w[i];
    }
    assert forall i :: 0 <= i < |w| ==> Lower(v)[i] == w[i];
  }

  /** The first two characters of capitalized words run together. */
  lemma FirstTwo(words: seq<Ident>)
    requires words != [] && AllPlain(words)
    ensures var t := Flat(CapitalizeAll(words));
            && t != [] && t[0] == ToUpper(words[0][0])
            && (|t| > 1 && IsLower(t[1]) <==> |words[0]| > 1 && IsLower(words[0][1]))
  {
    var w, rest := words[0], CapitalizeAll(words[1..]);
    CapitalizedAt(w);
    assert CapitalizeAll(words)[1..] == rest;
    assert Flat(CapitalizeAll(words)) == Capitalize(w) + Flat(rest);
    if |w| == 1 && |words| > 1 {
      CapitalizedAt(words[1]);
      assert rest[0] == Capitalize(words[1]);
      assert Flat(rest)[0] == rest[0][0];
    }
  }

  lemma CutHereIff(prev: Ident, capital: bool, words: seq<Ident>)
    requires PlainWord(prev) && words != [] && AllPlain(words)
    ensures var v := if capital then Capitalize(prev) else prev;
            StartsAfter(v[|v| - 1], Flat(CapitalizeAll(words))) <==> Fits(prev, capital, words[0])
  {
    CapitalizedAt(prev);
    FirstTwo(words);
  }

  lemma {:induction false} AllCutIff(prev: Ident, capital: bool, words: seq<Ident>)
    requires PlainWord(prev) && AllPlain(words)
    ensures AllCut([if capital then Capitalize(prev) else prev] + CapitalizeAll(words))
            <==> CapitalsFit(prev, capital, words)
    decreases |words|
  {
    if words != [] {
      var v := if capital then Capitalize(prev) else prev;
      CutHereIff(prev, capital, words);
      AllCutIff(words[0], true, words[1..]);
      assert ([v] + CapitalizeAll(words))[1..] == CapitalizeAll(words);
    }
  }

  lemma {:induction false} CapitalizeAllFacts(words: seq<Ident>)
    requires AllPlain(words)
    ensures LowerAll(CapitalizeAll(words)) == words && forall w :: w in CapitalizeAll(words) ==> Solid(w)
  {
    if words != [] {
      assert words == [words[0]] + words[1..];
      CapitalizedFacts(words[0]);
      CapitalizeAllFacts(words[1..]);
      assert CapitalizeAll(words)[1..] == CapitalizeAll(words[1..]);
    }
  }

  lemma PlainNameReadsBack(words: seq<Ident>)
    requires AllPlain(words)
    ensures WordsOf(Join(words, '_')) == words
  {
    forall w | w in words ensures ProperWord(w) && Lower(w) == w {
      PlainIsLower(w);
    }
    JoinedWordsReadBack(words, '_');
  }

  lemma PascalWordsIff(words: seq<Ident>)
    requires words != [] && AllPlain(words)
    ensures ToSnakeCase(PascalCase(words)) == Join(words, '_') <==> CapitalsFit(words[0], true, words[1..])
  {
    CapitalizeAllFacts(words);
    SnakeOfFlat(CapitalizeAll(words), words);
    AllCutIff(words[0], true, words[1..]);
    assert CapitalizeAll(words) == [Capitalize(words[0])] + CapitalizeAll(words[1..]);
  }

  lemma CamelWordsIff(words: seq<Ident>)
    requires words != [] && AllPlain(words)
    ensures ToSnakeCase(CamelCase(words)) == Join(words, '_') <==> CapitalsFit(words[0], false, words[1..])
  {
    var rest := CapitalizeAll(words[1..]);
    var v := [words[0]] + rest;
    assert v[1..] == rest && words == [words[0]] + words[1..];
    PlainIsLower(words[0]);
    LowerIsSolid(words[0]);
    CapitalizeAllFacts(words[1..]);
    assert Flat(v) == CamelCase(words);
    SnakeOfFlat(v, words);
    AllCutIff(words[0], false, words[1..]);
  }

  /** Which snake names come back from PascalCase. */
  lemma PascalRoundTripIff(words: seq<Ident>)
    requires words != [] && AllPlain(words)
    ensures ToSnakeCase(ApplyRenameAll(Join(words, '_'), Pascal)) == Join(words, '_')
            <==> CapitalsFit(words[0], true, words[1..])
  {
    PlainNameReadsBack(words);
    PascalWordsIff(words);
  }

  /** Which snake names come back from camelCase. */
  lemma CamelRoundTripIff(words: seq<Ident>)
    requires words != [] && AllPlain(words)
    ensures ToSnakeCase(ApplyRenameAll(Join(words, '_'), Camel)) == Join(words, '_')
            <==> CapitalsFit(words[0], false, words[1..])
  {
    PlainNameReadsBack(words);
    CamelWordsIff(words);
  }

  /** In particular every name whose words start with a letter and have two characters or more. */
  lemma {:induction false} LongWordsFit(prev: Ident, capital: bool, words: seq<Ident>)
    requires PlainWord(prev) && AllPlain(words)
    requires |prev| > 1 && forall i :: 0 <= i < |words| ==> |words[i]| > 1 && IsLower(words[i][0])
    ensures CapitalsFit(prev, capital, words)
    decreases |words|
  {
    if words != [] {
      LongWordsFit(words[0], true, words[1..]);
    }
  }

  /** One-letter words do not come back: `a_b_c` becomes `aBC`, which reads as two words. */
  lemma OneLetterWordsMerge()
    ensures var words: seq<Ident> := ["a", "b", "c"];
            ToSnakeCase(ApplyRenameAll(Join(words, '_'), Camel)) != Join(words, '_')
  {
    var words: seq<Ident> := ["a", "b", "c"];
    CamelRoundTripIff(words);
    var tail := words[1..];
    assert tail[0] == "b" && tail[1..][0] == "c";
  }
}
