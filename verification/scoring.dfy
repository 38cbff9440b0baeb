/**
  The results screen: the percentage of responses found in the answer key, and
  the two columns that set the answer key beside the responses.

  Matching is `List.contains` on plain lists: exact string equality, every
  response counted on its own, one response satisfying every copy of a word in
  the key.
 */
module Scoring {
  import opened Seqs
  import opened JavaText
  import opened Round

  /** The shown percentage `(double) correct / answerKey.size() * 100`, kept as
      the exact fraction num/den; an empty key divides 0.0 by 0, which is NaN.
      Floating-point rounding and the `%.1f` formatting are not modelled. */
  datatype Percent = Percent(num: nat, den: nat) | NaN

  /** Key entries the responses contain, in key order. */
  function Matched(answerKey: seq<string>, userAnswers: seq<string>): seq<string> {
    FilterIn(answerKey, userAnswers, true)
  }

  /** Key entries the responses do not contain, in key order. */
  function Missed(answerKey: seq<string>, userAnswers: seq<string>): seq<string> {
    FilterIn(answerKey, userAnswers, false)
  }

  /** Responses found in the key, each occurrence on its own. */
  function CorrectAnswers(answerKey: seq<string>, userAnswers: seq<string>): seq<string> {
    FilterIn(userAnswers, answerKey, true)
  }

  /** Responses not found in the key, in input order. */
  function Incorrect(answerKey: seq<string>, userAnswers: seq<string>): seq<string> {
    FilterIn(userAnswers, answerKey, false)
  }

  /** The accuracy as the counts define it. */
  function Accuracy(answerKey: seq<string>, userAnswers: seq<string>): Percent {
    if answerKey == [] then NaN
    else Percent(100 * |CorrectAnswers(answerKey, userAnswers)|, |answerKey|)
  }

  // ---------------------------------------------------------------------------
  // Accuracy

  /** `calculateAccuracy`: one pass over the responses that counts those the key
      contains and collects the others. The count and the collected responses
      together account for every response; the collected ones are exactly the
      responses missing from the key, in input order. */
  method CalculateAccuracy(answerKey: seq<string>, userAnswers: seq<string>)
    returns (percent: Percent, correct: nat, incorrect: seq<string>)
    ensures correct + |incorrect| == |userAnswers|
    ensures incorrect == Incorrect(answerKey, userAnswers)
    ensures correct == |CorrectAnswers(answerKey, userAnswers)|
    ensures percent == Accuracy(answerKey, userAnswers)
  {
    correct := 0;
    incorrect := [];
    var i := 0;
    while i < |userAnswers|
      invariant i <= |userAnswers|
      invariant incorrect == FilterIn(userAnswers[..i], answerKey, false)
      invariant correct == |FilterIn(userAnswers[..i], answerKey, true)|
    {
      assert userAnswers[..i + 1] == userAnswers[..i] + [userAnswers[i]];
      FilterInSnoc(userAnswers[..i], userAnswers[i], answerKey, false);
      FilterInSnoc(userAnswers[..i], userAnswers[i], answerKey, true);
      if userAnswers[i] in answerKey {
        correct := correct + 1;
      } else {
        incorrect := incorrect + [userAnswers[i]];
      }
      i := i + 1;
    }
    assert userAnswers[..i] == userAnswers;
    FilterInPartition(userAnswers, answerKey);
    percent := if answerKey == [] then NaN else Percent(100 * correct, |answerKey|);
  }

  /** With an empty key nothing is correct, every response is incorrect and the
      percentage is NaN. */
  lemma EmptyKey(userAnswers: seq<string>)
    ensures CorrectAnswers([], userAnswers) == []
    ensures Incorrect([], userAnswers) == userAnswers
    ensures Accuracy([], userAnswers) == NaN
  {
    DropNothing(userAnswers, []);
    FilterInPartition(userAnswers, []);
  }

  /** Filtering out the members of `ref` keeps all of a sequence disjoint from it. */
  lemma {:induction false} DropNothing(s: seq<string>, ref: seq<string>)
    requires forall i :: 0 <= i < |s| ==> s[i] !in ref
    ensures FilterIn(s, ref, false) == s
  {
    if s != [] {
      DropNothing(s[1..], ref);
      assert s == [s[0]] + s[1..];
    }
  }

  /** Repeated responses are each counted, so the percentage can pass 100. */
  lemma RepeatedResponseOverHundred()
    ensures Accuracy(["CAT"], ["CAT", "CAT"]) == Percent(200, 1)
  {
    assert "CAT" in ["CAT"];
    assert CorrectAnswers(["CAT"], ["CAT", "CAT"]) == ["CAT", "CAT"];
  }

  /** Without repeated responses the percentage is at most 100. */
  lemma {:induction false} AtMostHundred(answerKey: seq<string>, userAnswers: seq<string>)
    requires answerKey != []
    requires Distinct(userAnswers)
    ensures Accuracy(answerKey, userAnswers).num <= 100 * Accuracy(answerKey, userAnswers).den
  {
    var c := CorrectAnswers(answerKey, userAnswers);
    FilterInMembers(userAnswers, answerKey, true);
    DistinctSubBag(c, userAnswers);
    ElemsCard(c);
    ElemsCard(answerKey);
    assert Elems(c) <= Elems(answerKey);
    SubsetCard(Elems(c), Elems(answerKey));
  }

  /** One response satisfies every copy of a word in the key: both copies of
      CAT are matched, yet one correct response out of a two-word key is 50%. */
  lemma DuplicateKeyOneResponse()
    ensures Matched(["CAT", "CAT"], ["CAT"]) == ["CAT", "CAT"]
    ensures Missed(["CAT", "CAT"], ["CAT"]) == []
    ensures Accuracy(["CAT", "CAT"], ["CAT"]) == Percent(100, 2)
  {
    assert "CAT" in ["CAT"];
    assert "CAT" in ["CAT", "CAT"];
  }

  /** Responses equal to the key score 100%, with nothing missed and nothing
      incorrect. */
  lemma PerfectRecall(answerKey: seq<string>)
    requires answerKey != []
    ensures Accuracy(answerKey, answerKey) == Percent(100 * |answerKey|, |answerKey|)
    ensures Missed(answerKey, answerKey) == [] && Incorrect(answerKey, answerKey) == []
    ensures Matched(answerKey, answerKey) == answerKey
  {
    FilterInAll(answerKey, answerKey);
  }

  // ---------------------------------------------------------------------------
  // The two columns

  /** One line of a results column: the word, and whether it is shown in red. */
  datatype Cell = Cell(text: string, red: bool)

  function Cells(s: seq<string>, red: bool): (cs: seq<Cell>)
    ensures |cs| == |s|
  {
    seq(|s|, i requires 0 <= i < |s| => Cell(s[i], red))
  }

  lemma CellsSnoc(s: seq<string>, x: string, red: bool)
    ensures Cells(s + [x], red) == Cells(s, red) + [Cell(x, red)]
  {
  }

  function Texts(cs: seq<Cell>): (s: seq<string>)
    ensures |s| == |cs|
  {
    seq(|cs|, i requires 0 <= i < |cs| => cs[i].text)
  }

  /** A column of black entries followed by red ones. */
  function Column(black: seq<string>, red: seq<string>): (col: seq<Cell>)
    ensures |col| == |black| + |red| && Texts(col) == black + red
    ensures forall i :: 0 <= i < |black| ==> col[i] == Cell(black[i], false)
    ensures forall i :: |black| <= i < |col| ==> col[i] == Cell(red[i - |black|], true)
  {
    Cells(black, false) + Cells(red, true)
  }

  /** The left column: the matched key entries in black, then the missed ones in
      red. It lists the whole key, each entry as often as the key holds it; an
      entry is red exactly when no response equals it; and no black entry follows
      a red one. */
  function LeftColumn(answerKey: seq<string>, userAnswers: seq<string>): (col: seq<Cell>)
    ensures |col| == |answerKey| && multiset(Texts(col)) == multiset(answerKey)
    ensures forall i :: 0 <= i < |col| ==> (col[i].red <==> col[i].text !in userAnswers)
    ensures forall i, j :: 0 <= i < j < |col| && col[i].red ==> col[j].red
    ensures forall i :: 0 <= i < |Matched(answerKey, userAnswers)| ==> col[i] == Cell(Matched(answerKey, userAnswers)[i], false)
    ensures |col| == |Matched(answerKey, userAnswers)| + |Missed(answerKey, userAnswers)|
    ensures forall i :: |Matched(answerKey, userAnswers)| <= i < |col| ==>
              col[i] == Cell(Missed(answerKey, userAnswers)[i - |Matched(answerKey, userAnswers)|], true)
  {
    var matched := Matched(answerKey, userAnswers);
    var missed := Missed(answerKey, userAnswers);
    FilterInPartition(answerKey, userAnswers);
    FilterInMembers(answerKey, userAnswers, true);
    FilterInMembers(answerKey, userAnswers, false);
    BlackThenRed(matched, missed, userAnswers);
    Column(matched, missed)
  }

  /** The right column: the matched key entries in black, level with their copies
      in the left column, then the incorrect responses in red. A black entry is in
      both the key and the responses; a red one is a response the key lacks. */
  function RightColumn(answerKey: seq<string>, userAnswers: seq<string>): (col: seq<Cell>)
    ensures |col| == |Matched(answerKey, userAnswers)| + |Incorrect(answerKey, userAnswers)|
    ensures forall i :: 0 <= i < |col| ==> (col[i].red <==> col[i].text !in answerKey)
    ensures forall i :: 0 <= i < |col| && !col[i].red ==> col[i].text in userAnswers
    ensures forall i, j :: 0 <= i < j < |col| && col[i].red ==> col[j].red
    ensures forall i :: 0 <= i < |Matched(answerKey, userAnswers)| ==> col[i] == Cell(Matched(answerKey, userAnswers)[i], false)
    ensures forall i :: |Matched(answerKey, userAnswers)| <= i < |col| ==>
              col[i] == Cell(Incorrect(answerKey, userAnswers)[i - |Matched(answerKey, userAnswers)|], true)
  {
    var matched := Matched(answerKey, userAnswers);
    var incorrect := Incorrect(answerKey, userAnswers);
    FilterInMembers(answerKey, userAnswers, true);
    FilterInMembers(userAnswers, answerKey, false);
    BlackThenRed(matched, incorrect, answerKey);
    assert forall i :: 0 <= i < |matched| ==> matched[i] in matched;
    Column(matched, incorrect)
  }

  /** When every black entry is in `ref` and no red one is, an entry of the column
      is red exactly when `ref` lacks it, and the red entries come last. */
  lemma BlackThenRed(black: seq<string>, red: seq<string>, ref: seq<string>)
    requires forall x :: x in black ==> x in ref
    requires forall x :: x in red ==> x !in ref
    ensures var col := Column(black, red);
            (forall i :: 0 <= i < |col| ==> (col[i].red <==> col[i].text !in ref))
            && (forall i, j :: 0 <= i < j < |col| && col[i].red ==> col[j].red)
  {
    var col := Column(black, red);
    forall i | 0 <= i < |col|
      ensures col[i].red <==> col[i].text !in ref
    {
      if i < |black| {
        assert black[i] in black;
      } else {
        assert red[i - |black|] in red;
      }
    }
  }

  /** The matched entries stand level in the two columns. */
  lemma ColumnsLevel(answerKey: seq<string>, userAnswers: seq<string>, i: nat)
    requires i < |Matched(answerKey, userAnswers)|
    ensures i < |LeftColumn(answerKey, userAnswers)| && i < |RightColumn(answerKey, userAnswers)|
    ensures LeftColumn(answerKey, userAnswers)[i] == RightColumn(answerKey, userAnswers)[i]
    ensures !LeftColumn(answerKey, userAnswers)[i].red
  {
  }

  /** `populateColumns`: the first pass over the key puts each matched entry in
      both columns and sets the missed ones aside; the missed entries then go to
      the left column and the incorrect responses `calculateAccuracy` collected to
      the right one, both in red. */
  method PopulateColumns(answerKey: seq<string>, userAnswers: seq<string>, incorrect: seq<string>)
    returns (left: seq<Cell>, right: seq<Cell>)
    ensures left == LeftColumn(answerKey, userAnswers)
    ensures right == Column(Matched(answerKey, userAnswers), incorrect)
  {
    left := [];
    right := [];
    var missed := [];
    var i := 0;
    while i < |answerKey|
      invariant i <= |answerKey|
      invariant left == right == Cells(FilterIn(answerKey[..i], userAnswers, true), false)
      invariant missed == FilterIn(answerKey[..i], userAnswers, false)
    {
      var s := answerKey[i];
      assert answerKey[..i + 1] == answerKey[..i] + [s];
      FilterInSnoc(answerKey[..i], s, userAnswers, true);
      FilterInSnoc(answerKey[..i], s, userAnswers, false);
      CellsSnoc(FilterIn(answerKey[..i], userAnswers, true), s, false);
      if s in userAnswers {
        left := left + [Cell(s, false)];
        right := right + [Cell(s, false)];
      } else {
        missed := missed + [s];
      }
      i := i + 1;
    }
    assert answerKey[..i] == answerKey;
    left := left + Cells(missed, true);
    right := right + Cells(incorrect, true);
  }

  /** `onCreate` of the results screen: the accuracy, then the columns. */
  method ShowResults(answerKey: seq<string>, userAnswers: seq<string>)
    returns (percent: Percent, left: seq<Cell>, right: seq<Cell>)
    ensures percent == Accuracy(answerKey, userAnswers)
    ensures left == LeftColumn(answerKey, userAnswers)
    ensures right == RightColumn(answerKey, userAnswers)
  {
    var correct, incorrect;
    percent, correct, incorrect := CalculateAccuracy(answerKey, userAnswers);
    left, right := PopulateColumns(answerKey, userAnswers, incorrect);
  }

  // ---------------------------------------------------------------------------
  // Whole rounds

  /** The responses "cat sun fish" against the key CAT, DOG, SUN: two correct,
      DOG missed, FISH incorrect, two thirds. */
  lemma ExampleWordRound()
    ensures ResponseTokens("cat sun fish") == ["CAT", "SUN", "FISH"]
    ensures Accuracy(["CAT", "DOG", "SUN"], ["CAT", "SUN", "FISH"]) == Percent(200, 3)
    ensures Missed(["CAT", "DOG", "SUN"], ["CAT", "SUN", "FISH"]) == ["DOG"]
    ensures Incorrect(["CAT", "DOG", "SUN"], ["CAT", "SUN", "FISH"]) == ["FISH"]
  {
    ExampleWordTokens();
    ExampleWordScore();
  }

  lemma ExampleWordTokens()
    ensures ResponseTokens("cat sun fish") == ["CAT", "SUN", "FISH"]
  {
    ExampleWordTyped();
    ExampleWordUpper();
  }

  lemma ExampleWordTyped()
    ensures ResponseTokens("cat sun fish") == UpperEach(["cat", "sun", "fish"])
  {
    ExampleWordJoin();
    TypedWords(["cat", "sun", "fish"]);
  }

  lemma ExampleWordUpper()
    ensures UpperEach(["cat", "sun", "fish"]) == ["CAT", "SUN", "FISH"]
  {
    assert Upper("cat") == "CAT" && Upper("sun") == "SUN" && Upper("fish") == "FISH";
  }

  lemma ExampleWordJoin()
    ensures JoinSpace(["cat", "sun", "fish"]) == "cat sun fish"
  {
    var ws := ["cat", "sun", "fish"];
    assert JoinSpace(ws[2..]) == "fish";
    assert JoinSpace(ws[1..]) == "sun" + " " + "fish";
  }

  lemma ExampleWordScore()
    ensures Accuracy(["CAT", "DOG", "SUN"], ["CAT", "SUN", "FISH"]) == Percent(200, 3)
    ensures Missed(["CAT", "DOG", "SUN"], ["CAT", "SUN", "FISH"]) == ["DOG"]
    ensures Incorrect(["CAT", "DOG", "SUN"], ["CAT", "SUN", "FISH"]) == ["FISH"]
  {
    var key := ["CAT", "DOG", "SUN"];
    var resp := ["CAT", "SUN", "FISH"];
    assert "CAT" in key && "SUN" in key && "FISH" !in key;
    assert "CAT" in resp && "DOG" !in resp && "SUN" in resp;
    assert CorrectAnswers(key, resp) == ["CAT", "SUN"];
  }

  /** A shown sentence contributes its words without the full stop. */
  lemma ExampleSentenceKey()
    ensures AnswerKey(Sentences, ["THE CAT RAN."]) == ["THE", "CAT", "RAN"]
  {
    assert ["THE CAT RAN."][1..] == [];
    ExampleSentenceWords();
  }

  lemma ExampleSentenceWords()
    ensures SentenceWords("THE CAT RAN.") == ["THE", "CAT", "RAN"]
  {
    ExampleSentenceStripped();
    ExampleSentenceSplit();
  }

  lemma ExampleSentenceSplit()
    ensures SplitWs("THE CAT RAN") == ["THE", "CAT", "RAN"]
  {
    ExampleSentenceJoin();
    SplitJoin(["THE", "CAT", "RAN"]);
  }

  lemma ExampleSentenceStripped()
    ensures Keep("THE CAT RAN.", NotSentenceEnd) == "THE CAT RAN"
  {
    var ws := ["THE", "CAT", "RAN"];
    ExampleSentenceJoin();
    assert "THE CAT RAN." == JoinSpace(ws) + ".";
    KeepAppend(JoinSpace(ws), ".", NotSentenceEnd);
    JoinSpaceKeep(ws, NotSentenceEnd);
    assert Keep(".", NotSentenceEnd) == [];
  }

  lemma ExampleSentenceJoin()
    ensures JoinSpace(["THE", "CAT", "RAN"]) == "THE CAT RAN"
  {
    var ws := ["THE", "CAT", "RAN"];
    assert JoinSpace(ws[2..]) == "RAN";
    assert JoinSpace(ws[1..]) == "CAT" + " " + "RAN";
  }

  /** Typing that sentence back in lower case and without its full stop matches
      all of its words. */
  lemma ExampleSentenceRound()
    ensures ResponseTokens("the cat ran") == AnswerKey(Sentences, ["THE CAT RAN."])
    ensures Accuracy(["THE", "CAT", "RAN"], ["THE", "CAT", "RAN"]) == Percent(300, 3)
  {
    ExampleSentenceKey();
    ExampleSentenceTyped();
    ExampleSentenceUpper();
    PerfectRecall(["THE", "CAT", "RAN"]);
  }

  lemma ExampleSentenceTyped()
    ensures ResponseTokens("the cat ran") == UpperEach(["the", "cat", "ran"])
  {
    ExampleLowerJoin();
    TypedWords(["the", "cat", "ran"]);
  }

  lemma ExampleLowerJoin()
    ensures JoinSpace(["the", "cat", "ran"]) == "the cat ran"
  {
    var ws := ["the", "cat", "ran"];
    assert JoinSpace(ws[2..]) == "ran";
    assert JoinSpace(ws[1..]) == "cat" + " " + "ran";
  }

  lemma ExampleSentenceUpper()
    ensures UpperEach(["the", "cat", "ran"]) == ["THE", "CAT", "RAN"]
  {
    assert Upper("the") == "THE" && Upper("cat") == "CAT" && Upper("ran") == "RAN";
  }

  /** A word round played perfectly: the shown words are upper-case letters,
      the response is those words typed in display order separated by single
      spaces, and every word is then matched and the score is 100%. */
  lemma WordRoundPerfect(shown: seq<string>)
    requires shown != []
    requires forall i :: 0 <= i < |shown| ==> shown[i] != []
    requires forall i, k :: 0 <= i < |shown| && 0 <= k < |shown[i]| ==> 'A' <= shown[i][k] <= 'Z'
    ensures ResponseTokens(JoinSpace(shown)) == AnswerKey(Words, shown)
    ensures Accuracy(AnswerKey(Words, shown), ResponseTokens(JoinSpace(shown))) == Percent(100 * |shown|, |shown|)
    ensures Missed(shown, ResponseTokens(JoinSpace(shown))) == []
  {
    TypedWords(shown);
    forall i | 0 <= i < |shown|
      ensures UpperEach(shown)[i] == shown[i]
    {
      UpperFixed(shown[i]);
    }
    assert UpperEach(shown) == shown;
    PerfectRecall(shown);
  }

  /** A sentence round played perfectly: the shown sentence is words of letters
      separated by single spaces, upper-cased as the list file stores it, and
      ended by a terminator; the response is the same words typed in any case
      without the terminator. Every word of the key is then matched and the score
      is 100%. */
  lemma SentenceRoundPerfect(ws: seq<string>, t: char)
    requires ws != []
    requires forall i :: 0 <= i < |ws| ==> ws[i] != []
    requires forall i, k :: 0 <= i < |ws| && 0 <= k < |ws[i]| ==> 'a' <= ws[i][k] <= 'z' || 'A' <= ws[i][k] <= 'Z'
    requires IsSentenceEnd(t)
    ensures ResponseTokens(JoinSpace(ws)) == AnswerKey(Sentences, [Upper(JoinSpace(ws)) + [t]])
    ensures Accuracy(AnswerKey(Sentences, [Upper(JoinSpace(ws)) + [t]]), ResponseTokens(JoinSpace(ws)))
            == Percent(100 * |ws|, |ws|)
  {
    TypedWords(ws);
    SentenceKey(ws, t);
    PerfectRecall(UpperEach(ws));
  }

  /** The key of such a sentence is its words, upper-cased. */
  lemma SentenceKey(ws: seq<string>, t: char)
    requires ws != []
    requires forall i :: 0 <= i < |ws| ==> ws[i] != []
    requires forall i, k :: 0 <= i < |ws| && 0 <= k < |ws[i]| ==> 'a' <= ws[i][k] <= 'z' || 'A' <= ws[i][k] <= 'Z'
    requires IsSentenceEnd(t)
    ensures AnswerKey(Sentences, [Upper(JoinSpace(ws)) + [t]]) == UpperEach(ws)
  {
    var j := JoinSpace(ws);
    var u := Upper(j);
    var s := u + [t];
    SentenceTyped(ws);
    KeepAppend(u, [t], NotSentenceEnd);
    assert Keep([t], NotSentenceEnd) == [];
    assert [s][1..] == [];
    assert Keep(s, NotSentenceEnd) == u + [];
    assert u + [] == u;
    SplitWsUpper(j);
    assert SentenceWords(s) == SplitWs(u);
  }

  /** Typed words of letters joined by spaces, once upper-cased, hold no
      terminator, and splitting them gives the words back. */
  lemma SentenceTyped(ws: seq<string>)
    requires ws != []
    requires forall i :: 0 <= i < |ws| ==> ws[i] != []
    requires forall i, k :: 0 <= i < |ws| && 0 <= k < |ws[i]| ==> 'a' <= ws[i][k] <= 'z' || 'A' <= ws[i][k] <= 'Z'
    ensures Keep(Upper(JoinSpace(ws)), NotSentenceEnd) == Upper(JoinSpace(ws))
    ensures SplitWs(JoinSpace(ws)) == ws
  {
    var j := JoinSpace(ws);
    var u := Upper(j);
    JoinSpaceKeep(ws, ResponseChar);
    forall i | 0 <= i < |u|
      ensures NotSentenceEnd(u[i])
    {
      assert ResponseChar(Keep(j, ResponseChar)[i]);
    }
    KeepAll(u, NotSentenceEnd);
    forall i | 0 <= i < |ws|
      ensures NoWs(ws[i])
    {
    }
    SplitJoin(ws);
  }
}
