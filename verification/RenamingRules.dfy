/** What each naming convention does to any identifier, letter by letter. */
module RenamingRules {
  import opened Lists
  import opened Words
  import opened Renaming

  predicate Capital(c: Letter) { 'A' <= c <= 'Z' }

  predicate Small(c: Letter) { 'a' <= c <= 'z' }

  predicate Digit(c: Letter) { '0' <= c <= '9' }

  predicate Separator(c: Letter) { c == '_' || c == '-' }

  // ----------------------------------------------------------------- splitting

  /**
   * Exactly where words are cut between two neighbouring characters: before a
   * capital that follows a small letter or a digit, and before the last capital
   * of a run that a small letter follows.
   */
  lemma CutIff(a: Letter, b: Letter, rest: Ident)
    requires !Separator(a) && !Separator(b)
    ensures var cut := Capital(b) && (Small(a) || Digit(a) || (Capital(a) && rest != [] && Small(rest[0])));
            var after := WordsOf([b] + rest);
            && after != []
            && WordsOf([a, b] + rest) == if cut then [[a]] + after else [[a] + after[0]] + after[1..]
  {
    var s := [a, b] + rest;
    assert s[1..] == [b] + rest && s[1..][1..] == rest;
  }

  /** Separators end a word and belong to none. */
  lemma SeparatorIsDropped(c: Letter, rest: Ident)
    requires Separator(c)
    ensures WordsOf([c] + rest) == WordsOf(rest)
  {
    assert ([c] + rest)[1..] == rest;
  }

  lemma SeparatorEndsWord(a: Letter, c: Letter, rest: Ident)
    requires !Separator(a) && Separator(c)
    ensures WordsOf([a, c] + rest) == [[a]] + WordsOf(rest)
  {
    var s := [a, c] + rest;
    assert s[1..] == [c] + rest && s[1..][1..] == rest;
    SeparatorIsDropped(c, rest);
  }

  lemma LastLetter(a: Letter)
    requires !Separator(a)
    ensures WordsOf([a]) == [[a]] && WordsOf([]) == []
  {
    assert [a][1..] == [];
  }

  // ------------------------------------------------------------------- letters

  /** Lowering and raising change the 26 letters and nothing else. */
  lemma CaseIs(c: Letter)
    ensures Capital(c) ==> ToLower(c) as int == c as int + 32 && ToUpper(c) == c
    ensures Small(c) ==> ToUpper(c) as int == c as int - 32 && ToLower(c) == c
    ensures !Capital(c) && !Small(c) ==> ToLower(c) == c && ToUpper(c) == c
  {
  }

  // --------------------------------------------------------------------- rules

  /** The capital rules are the small ones raised; an unknown rule changes nothing. */
  lemma CapitalRules(s: Ident)
    ensures ApplyRenameAll(s, ScreamingSnake) == Upper(ApplyRenameAll(s, Snake))
    ensures ApplyRenameAll(s, ScreamingKebab) == Upper(ApplyRenameAll(s, Kebab))
    ensures ApplyRenameAll(s, Uppercase) == Upper(ApplyRenameAll(s, Lowercase))
    ensures ApplyRenameAll(s, Other) == s
  {
    UpperOfLower(Join(WordsOf(s), '_'));
    UpperOfLower(Join(WordsOf(s), '-'));
    UpperOfLower(Flat(WordsOf(s)));
  }

  lemma UpperOfLower(s: Ident)
    ensures Upper(Lower(s)) == Upper(s)
  {
  }

  /** The one rule is the other with its separator exchanged. */
  lemma KebabIsSnake(s: Ident)
    ensures var snake, kebab := ApplyRenameAll(s, Snake), ApplyRenameAll(s, Kebab);
            && |snake| == |kebab|
            && forall i :: 0 <= i < |snake| ==>
                 && (snake[i] == '_' <==> kebab[i] == '-') && snake[i] != '-' && kebab[i] != '_'
                 && (snake[i] != '_' ==> snake[i] == kebab[i])
  {
    WordsSpellIdentifier(s);
    JoinsAlike(WordsOf(s));
  }

  lemma {:induction false} JoinsAlike(words: seq<Ident>)
    requires forall w :: w in words ==> ProperWord(w)
    ensures var a, b := Join(words, '_'), Join(words, '-');
            && |a| == |b|
            && forall i :: 0 <= i < |a| ==>
                 (a[i] == '_' && b[i] == '-') || (a[i] == b[i] && !Separator(a[i]))
  {
    if |words| > 1 {
      JoinsAlike(words[1..]);
      assert words[0] in words;
    } else if |words| == 1 {
      assert words[0] in words;
    }
  }

  lemma {:induction false} CapitalsOnly(words: seq<Ident>)
    ensures Lower(Flat(CapitalizeAll(words))) == Lower(Flat(words))
  {
    if words != [] {
      CapitalsOnly(words[1..]);
      LowerOfConcat(Capitalize(words[0]), Flat(CapitalizeAll(words[1..])));
      LowerOfConcat(words[0], Flat(words[1..]));
      LowerOfCapitalized(words[0]);
      assert CapitalizeAll(words)[0] == Capitalize(words[0]);
      assert CapitalizeAll(words)[1..] == CapitalizeAll(words[1..]);
    }
  }

  lemma LowerOfConcat(a: Ident, b: Ident)
    ensures Lower(a + b) == Lower(a) + Lower(b)
  {
  }

  lemma LowerOfCapitalized(w: Ident)
    ensures Lower(Capitalize(w)) == Lower(w)
  {
  }

  /** Camel and Pascal case change letters in case only, and drop the separators. */
  lemma CamelKeepsLetters(s: Ident)
    ensures Lower(ApplyRenameAll(s, Pascal)) == Lower(ApplyRenameAll(s, Camel)) == Lower(Strip(s))
  {
    var words := WordsOf(s);
    WordsSpellIdentifier(s);
    CapitalsOnly(words);
    if words != [] {
      CapitalsOnly(words[1..]);
      LowerOfConcat(Lower(words[0]), Flat(CapitalizeAll(words[1..])));
      LowerOfConcat(words[0], Flat(words[1..]));
      assert Lower(Lower(words[0])) == Lower(words[0]);
    }
  }

  /** A word in Pascal case: its first letter raised, all others lowered. */
  lemma CapitalizedIs(w: Ident, i: nat)
    requires i < |w|
    ensures |Capitalize(w)| == |w| && Capitalize(w)[i] == if i == 0 then ToUpper(w[i]) else ToLower(w[i])
  {
    ConsAt(ToUpper(w[0]), Lower(w[1..]), i);
    if i > 0 {
      LowerOfTail(w, i);
    }
  }

  lemma ConsAt<T>(x: T, s: seq<T>, i: nat)
    requires i <= |s|
    ensures ([x] + s)[i] == if i == 0 then x else s[i - 1]
  {
  }

  lemma LowerOfTail(w: Ident, i: nat)
    requires 0 < i < |w|
    ensures Lower(w[1..])[i - 1] == ToLower(w[i])
  {
    var rest := w[1..];
    assert rest[i - 1] == w[i];
  }

  /** Pascal case runs such words together; camel case lowers the first of them. */
  lemma {:induction false} WordsInCase(words: seq<Ident>, more: Ident)
    ensures PascalCase(words + [more]) == PascalCase(words) + Capitalize(more)
    ensures CamelCase(words + [more]) == if words == [] then Lower(more) else CamelCase(words) + Capitalize(more)
  {
    CapitalizePush(words, more);
    FlatPush(CapitalizeAll(words), Capitalize(more));
    var all := words + [more];
    if words == [] {
      assert all[1..] == [] && all[0] == more;
    } else {
      assert all[1..] == words[1..] + [more] && all[0] == words[0];
      CapitalizePush(words[1..], more);
      FlatPush(CapitalizeAll(words[1..]), Capitalize(more));
    }
  }

  lemma {:induction false} CapitalizePush(words: seq<Ident>, more: Ident)
    ensures CapitalizeAll(words + [more]) == CapitalizeAll(words) + [Capitalize(more)]
  {
    var all := words + [more];
    if words == [] {
      assert all == [more] && all[1..] == [];
    } else {
      CapitalizePush(words[1..], more);
      assert all[1..] == words[1..] + [more] && all[0] == words[0];
    }
  }
}
