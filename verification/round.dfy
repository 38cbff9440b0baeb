/**
  The round engine of the game screen: drawing a round's elements from the pool
  (a partial Fisher–Yates shuffle), and turning the typed response and the shown
  elements into the two token lists the results screen compares.
 */
module Round {
  import opened Seqs
  import opened JavaText
  import opened JavaNum

  /** The `wsState` preference: words (false) or sentences (true). */
  datatype Mode = Words | Sentences

  // ---------------------------------------------------------------------------
  // Drawing the elements

  /** How many elements a round shows: the loop runs while
      `i < numOfElements && i < elementList.size()`. */
  function ShownCount(numOfElements: int, poolSize: nat): nat {
    if numOfElements <= 0 then 0
    else if numOfElements < poolSize then numOfElements
    else poolSize
  }

  /** `Collections.swap`. */
  function Swap(s: seq<string>, i: nat, j: nat): (r: seq<string>)
    requires i < |s| && j < |s|
    ensures |r| == |s| && multiset(r) == multiset(s)
    ensures r[i] == s[j] && r[j] == s[i]
    ensures forall k :: 0 <= k < |s| && k != i && k != j ==> r[k] == s[k]
  {
    s[i := s[j]][j := s[i]]
  }

  /** Swapping slot `i` with a later one extends the drawn prefix by the
      element that was at the later slot. */
  lemma SwapPrefix(s: seq<string>, i: nat, pos: nat)
    requires i <= pos < |s|
    ensures Swap(s, i, pos)[..i + 1] == s[..i] + [s[pos]]
  {
    var next := Swap(s, i, pos);
    forall k | 0 <= k < i + 1
      ensures next[k] == (s[..i] + [s[pos]])[k]
    {
    }
  }

  lemma PrefixSubBag<T>(s: seq<T>, n: nat)
    requires n <= |s|
    ensures multiset(s[..n]) <= multiset(s)
  {
    assert s == s[..n] + s[n..];
  }

  /** Step `i` of the draw: `(int) (Math.random() * (size - i) + i)`, a position
      in the part of the pool not drawn yet. */
  function DrawPosition(r: RandomDraw, i: nat, size: nat): (pos: nat)
    requires i < size
    ensures i <= pos < size
  {
    i + Scale(r, size - i)
  }

  /** The element-drawing loop of `setTextViews`: step `i` shows the element at a
      random position at or after `i` and swaps it into slot `i`, so it is not
      drawn again. `random(i)` is the `Math.random()` value of step `i`.
      Returns the shown elements and the reordered pool. */
  method SetTextViews(pool: seq<string>, numOfElements: int, random: nat -> RandomDraw)
    returns (shown: seq<string>, shuffled: seq<string>)
    ensures |shown| == ShownCount(numOfElements, |pool|)
    ensures |shuffled| == |pool| && multiset(shuffled) == multiset(pool)
    ensures shown == shuffled[..|shown|]
    ensures multiset(shown) <= multiset(pool)
    ensures Distinct(pool) ==> Distinct(shown)
  {
    shuffled := pool;
    shown := [];
    var i := 0;
    while i < numOfElements && i < |shuffled|
      invariant i <= |shuffled| == |pool|
      invariant i <= ShownCount(numOfElements, |pool|)
      invariant multiset(shuffled) == multiset(pool)
      invariant shown == shuffled[..i]
    {
      var pos := DrawPosition(random(i), i, |shuffled|);
      var next := Swap(shuffled, i, pos);
      SwapPrefix(shuffled, i, pos);
      shown := shown + [shuffled[pos]];
      shuffled := next;
      i := i + 1;
    }
    PrefixSubBag(shuffled, i);
    if Distinct(pool) {
      DistinctSubBag(shown, pool);
    }
  }

  // ---------------------------------------------------------------------------
  // The typed response

  /** The class `[a-zA-z ]` the finish button keeps. The range `A-z` runs from
      `A` to `z`, so besides the letters it keeps `[`, `\`, `]`, `^`, `_` and the
      backtick. Space is the only whitespace it keeps: tabs and line breaks are
      deleted, not treated as separators. */
  predicate ResponseChar(c: char) {
    'a' <= c <= 'z' || 'A' <= c <= 'z' || c == ' '
  }

  /** The characters that can end up inside a response token. */
  predicate ResponseWordChar(c: char) {
    'A' <= c <= 'z'
  }

  /** The finish button's normalisation of the typed text:
      `text.replaceAll("[^a-zA-z ]", "").split("\\s+")`, each piece upper-cased.
      Every token is upper-case with no whitespace and only characters of the
      kept class; together the tokens spell the kept non-space characters,
      upper-cased; tokens after the first are never empty. Text with nothing kept
      gives the single empty token, and kept text starting with a space gives an
      empty first token. */
  function ResponseTokens(text: string): (tokens: seq<string>)
    ensures forall i :: 0 <= i < |tokens| ==> IsUpperCase(tokens[i]) && NoWs(tokens[i])
    ensures forall i, k :: 0 <= i < |tokens| && 0 <= k < |tokens[i]| ==> ResponseWordChar(tokens[i][k])
    ensures Concat(tokens) == Upper(Keep(text, ResponseWordChar))
    ensures forall i :: 1 <= i < |tokens| ==> tokens[i] != []
    ensures Keep(text, ResponseChar) == [] ==> tokens == [[]]
    ensures var kept := Keep(text, ResponseChar);
            kept != [] && kept[0] == ' ' && Keep(text, ResponseWordChar) != [] ==> |tokens| >= 2 && tokens[0] == []
  {
    ResponseTokensSpec(text);
    UpperEach(SplitWs(Keep(text, ResponseChar)))
  }

  lemma ResponseTokensSpec(text: string)
    ensures var tokens := UpperEach(SplitWs(Keep(text, ResponseChar)));
            (forall i :: 0 <= i < |tokens| ==> IsUpperCase(tokens[i]) && NoWs(tokens[i]))
            && (forall i, k :: 0 <= i < |tokens| && 0 <= k < |tokens[i]| ==> ResponseWordChar(tokens[i][k]))
            && Concat(tokens) == Upper(Keep(text, ResponseWordChar))
            && (forall i :: 1 <= i < |tokens| ==> tokens[i] != [])
    ensures var kept := Keep(text, ResponseChar);
            var tokens := UpperEach(SplitWs(kept));
            (kept == [] ==> tokens == [[]])
            && (kept != [] && kept[0] == ' ' && Keep(text, ResponseWordChar) != [] ==> |tokens| >= 2 && tokens[0] == [])
  {
    UpperEachShape(SplitWs(Keep(text, ResponseChar)));
    ResponseTokensContent(text);
    ResponseTokensEdges(text);
  }

  lemma ResponseTokensEdges(text: string)
    ensures var kept := Keep(text, ResponseChar);
            var tokens := UpperEach(SplitWs(kept));
            (kept == [] ==> tokens == [[]])
            && (kept != [] && kept[0] == ' ' && Keep(text, ResponseWordChar) != [] ==> |tokens| >= 2 && tokens[0] == [])
  {
    var kept := Keep(text, ResponseChar);
    var pieces := SplitWs(kept);
    if kept != [] && kept[0] == ' ' && Keep(text, ResponseWordChar) != [] {
      KeepKeep(text, ResponseChar, NotWs, ResponseWordChar);
      assert Keep(kept, NotWs) != [];
      assert |pieces| >= 2 && pieces[0] == [];
    }
  }

  /** Words of letters typed with single spaces between them come back as the
      same words, upper-cased. */
  lemma TypedWords(ws: seq<string>)
    requires ws != []
    requires forall i :: 0 <= i < |ws| ==> ws[i] != []
    requires forall i, k :: 0 <= i < |ws| && 0 <= k < |ws[i]| ==> 'a' <= ws[i][k] <= 'z' || 'A' <= ws[i][k] <= 'Z'
    ensures ResponseTokens(JoinSpace(ws)) == UpperEach(ws)
  {
    JoinSpaceKeep(ws, ResponseChar);
    forall i | 0 <= i < |ws|
      ensures NoWs(ws[i])
    {
    }
    SplitJoin(ws);
  }

  /** Where the response is cut: when anything is kept, the tokens are the kept
      text, upper-cased, cut at each of its whitespace runs (which are runs of
      spaces, the only whitespace kept). */
  lemma ResponseTokensCut(text: string) returns (gaps: seq<string>)
    requires Keep(text, ResponseChar) != []
    ensures WsCut(Upper(Keep(text, ResponseChar)), ResponseTokens(text), gaps)
  {
    var kept := Keep(text, ResponseChar);
    gaps := SplitWsCut(kept);
    WsCutUpper(kept, SplitWs(kept), gaps);
  }

  /** Conversely, tokens that cut the upper-cased kept text at its whitespace
      runs are the response tokens. */
  lemma CutResponseTokens(text: string, tokens: seq<string>, gaps: seq<string>)
    requires Keep(text, ResponseChar) != []
    requires WsCut(Upper(Keep(text, ResponseChar)), tokens, gaps)
    ensures ResponseTokens(text) == tokens
  {
    var kept := Keep(text, ResponseChar);
    WsCutSplit(Upper(kept), tokens, gaps);
    SplitWsUpper(kept);
  }

  /** Upper-casing each piece keeps the pieces' lengths, and leaves them
      upper-case and free of whitespace. */
  lemma UpperEachShape(pieces: seq<string>)
    requires forall i :: 0 <= i < |pieces| ==> NoWs(pieces[i])
    ensures |UpperEach(pieces)| == |pieces|
    ensures forall i :: 0 <= i < |pieces| ==> |UpperEach(pieces)[i]| == |pieces[i]|
    ensures forall i :: 0 <= i < |pieces| ==> IsUpperCase(UpperEach(pieces)[i]) && NoWs(UpperEach(pieces)[i])
    ensures forall i :: 0 <= i < |pieces| ==> (UpperEach(pieces)[i] == [] <==> pieces[i] == [])
  {
    forall i | 0 <= i < |pieces|
      ensures IsUpperCase(UpperEach(pieces)[i]) && NoWs(UpperEach(pieces)[i])
    {
      UpperFixed(pieces[i]);
    }
  }

  /** Kept response characters are upper-cased into characters of the same class. */
  lemma UpperResponseWordChar(c: char)
    requires ResponseWordChar(c)
    ensures ResponseWordChar(UpperChar(c))
  {
  }

  lemma ResponseTokensContent(text: string)
    ensures Keep(Keep(text, ResponseChar), NotWs) == Keep(text, ResponseWordChar)
    ensures forall i, k :: 0 <= i < |SplitWs(Keep(text, ResponseChar))| && 0 <= k < |SplitWs(Keep(text, ResponseChar))[i]|
              ==> ResponseWordChar(UpperChar(SplitWs(Keep(text, ResponseChar))[i][k]))
    ensures Concat(UpperEach(SplitWs(Keep(text, ResponseChar)))) == Upper(Keep(text, ResponseWordChar))
  {
    var kept := Keep(text, ResponseChar);
    var pieces := SplitWs(kept);
    KeepKeep(text, ResponseChar, NotWs, ResponseWordChar);
    forall i, k | 0 <= i < |pieces| && 0 <= k < |pieces[i]|
      ensures ResponseWordChar(UpperChar(pieces[i][k]))
    {
      ConcatMember(pieces, i, k);
      KeepMember(text, ResponseWordChar, pieces[i][k]);
      UpperResponseWordChar(pieces[i][k]);
    }
    ConcatUpperEach(pieces);
  }

  // ---------------------------------------------------------------------------
  // The answer key

  predicate NotSentenceEnd(c: char) {
    !IsSentenceEnd(c)
  }

  /** The characters that can end up inside a sentence-mode key token. */
  predicate KeyWordChar(c: char) {
    !IsSentenceEnd(c) && !IsWs(c)
  }

  /** One shown sentence as key tokens: `replaceAll("[.!?]", "").split("\\s+")`.
      No token holds whitespace; together they spell the sentence's characters
      that are neither whitespace nor terminators; tokens after the first are
      never empty. */
  function SentenceWords(sentence: string): (words: seq<string>)
    ensures forall i :: 0 <= i < |words| ==> NoWs(words[i])
    ensures Concat(words) == Keep(sentence, KeyWordChar)
    ensures forall i :: 1 <= i < |words| ==> words[i] != []
    ensures Keep(sentence, NotSentenceEnd) == [] ==> words == [[]]
  {
    KeepKeep(sentence, NotSentenceEnd, NotWs, KeyWordChar);
    SplitWs(Keep(sentence, NotSentenceEnd))
  }

  /** Where a sentence is cut: once its terminators are deleted, a sentence with
      anything left gives that text cut at each of its whitespace runs. */
  lemma SentenceWordsCut(sentence: string) returns (gaps: seq<string>)
    requires Keep(sentence, NotSentenceEnd) != []
    ensures WsCut(Keep(sentence, NotSentenceEnd), SentenceWords(sentence), gaps)
  {
    gaps := SplitWsCut(Keep(sentence, NotSentenceEnd));
  }

  /** A shown sentence that is only terminators, such as `?`, still contributes
      one token: the empty one, since `"".split("\\s+")` is `[""]`. */
  lemma AnswerKeyTerminatorOnly(sentence: string)
    requires Keep(sentence, NotSentenceEnd) == []
    ensures AnswerKey(Sentences, [sentence]) == [[]]
  {
    assert [sentence][1..] == [];
  }

  /** The key of one shown sentence: any tokens that cut the sentence, once its
      terminators are deleted, at its whitespace runs. */
  lemma AnswerKeySentence(sentence: string, tokens: seq<string>, gaps: seq<string>)
    requires Keep(sentence, NotSentenceEnd) != []
    requires WsCut(Keep(sentence, NotSentenceEnd), tokens, gaps)
    ensures AnswerKey(Sentences, [sentence]) == tokens
  {
    assert [sentence][1..] == [];
    WsCutSplit(Keep(sentence, NotSentenceEnd), tokens, gaps);
  }

  /** The answer key built from the shown elements in display order: in word
      mode each element verbatim, in sentence mode the words of every sentence,
      one sentence after another. */
  function AnswerKey(mode: Mode, shown: seq<string>): (key: seq<string>)
    ensures mode == Words ==> key == shown
    ensures mode == Sentences ==> forall i :: 0 <= i < |key| ==> NoWs(key[i])
    ensures mode == Sentences ==> Concat(key) == Keep(Concat(shown), KeyWordChar)
  {
    match mode
    case Words => shown
    case Sentences =>
      if shown == [] then []
      else
        var first := SentenceWords(shown[0]);
        var rest := AnswerKey(Sentences, shown[1..]);
        KeepKeep(shown[0], NotSentenceEnd, NotWs, KeyWordChar);
        ConcatAppend(first, rest);
        KeepAppend(shown[0], Concat(shown[1..]), KeyWordChar);
        first + rest
  }

  /** In sentence mode no key token holds a terminator. */
  lemma {:induction false} AnswerKeyNoTerminators(shown: seq<string>)
    ensures forall i, k :: 0 <= i < |AnswerKey(Sentences, shown)| && 0 <= k < |AnswerKey(Sentences, shown)[i]|
              ==> KeyWordChar(AnswerKey(Sentences, shown)[i][k])
  {
    var key := AnswerKey(Sentences, shown);
    forall i, k | 0 <= i < |key| && 0 <= k < |key[i]|
      ensures KeyWordChar(key[i][k])
    {
      ConcatMember(key, i, k);
      KeepMember(Concat(shown), KeyWordChar, key[i][k]);
    }
  }

  lemma AnswerKeyCons(shown: seq<string>)
    requires shown != []
    ensures AnswerKey(Sentences, shown) == SentenceWords(shown[0]) + AnswerKey(Sentences, shown[1..])
  {
  }

  /** The key follows display order: the key of two runs of shown elements is the
      key of the first followed by the key of the second. */
  lemma {:induction false} AnswerKeyAppend(mode: Mode, a: seq<string>, b: seq<string>)
    ensures AnswerKey(mode, a + b) == AnswerKey(mode, a) + AnswerKey(mode, b)
  {
    if mode == Sentences && a != [] {
      var ab, w := a + b, SentenceWords(a[0]);
      assert ab[0] == a[0] && ab[1..] == a[1..] + b;
      AnswerKeyAppend(mode, a[1..], b);
      AnswerKeyCons(ab);
      AnswerKeyCons(a);
      calc {
        AnswerKey(mode, ab);
        w + AnswerKey(mode, a[1..] + b);
        w + (AnswerKey(mode, a[1..]) + AnswerKey(mode, b));
        { AppendAssoc(w, AnswerKey(mode, a[1..]), AnswerKey(mode, b)); }
        (w + AnswerKey(mode, a[1..])) + AnswerKey(mode, b);
      }
    } else if a == [] {
      assert a + b == b;
    }
  }
}
