/**
  The word- and sentence-list editor. The list file is its sequence of lines;
  every edit reads the lines, rewrites them and writes them back.

  Lines only ever enter the file through `addElement`, trimmed and upper-cased,
  and the file starts empty. Taking the file to be the lines as written, every
  file this screen produces holds distinct, non-empty, trimmed, upper-case lines
  (`WellFormed`); every edit keeps that so, and on such files the
  case-insensitive and trimming matches of the source become plain equality.
  Reading the file back with `Scanner` is not modelled: `nextLine` also ends a
  line at U+0085, U+2028 and U+2029, and `hasNext` skips a last line made only
  of Unicode whitespace such as U+2003, so an element holding such characters
  does not come back as the line that was written.
 */
module ElementList {
  import opened Seqs
  import opened JavaText
  import opened Round

  // ---------------------------------------------------------------------------
  // Splitting typed text into elements

  predicate IsLetter(c: char) {
    'a' <= c <= 'z' || 'A' <= c <= 'Z'
  }

  /** The class `[a-zA-Z ]` kept in word mode. */
  predicate LetterOrSpace(c: char) {
    IsLetter(c) || c == ' '
  }

  /** A character `trim()` never removes. */
  predicate Visible(c: char) {
    c > ' '
  }

  /** Each piece trimmed, as the loop of `addNewElements` does before adding it. */
  function TrimEach(ps: seq<string>): (r: seq<string>)
    ensures |r| == |ps|
  {
    seq(|ps|, i requires 0 <= i < |ps| => Trim(ps[i]))
  }

  lemma TrimEachTail(ps: seq<string>)
    requires ps != []
    ensures TrimEach(ps)[1..] == TrimEach(ps[1..])
  {
    var t, u := TrimEach(ps)[1..], TrimEach(ps[1..]);
    forall k | 0 <= k < |u|
      ensures t[k] == u[k]
    {
      assert ps[1..][k] == ps[k + 1];
    }
  }

  /** Word mode: `replaceAll("[^a-zA-Z ]", "").split("\\s+")`, each piece
      trimmed. Every element is made of letters only, together they spell the
      letters of the text in order, and only the first can be empty. */
  function WordElements(text: string): (es: seq<string>)
    ensures forall i, k :: 0 <= i < |es| && 0 <= k < |es[i]| ==> IsLetter(es[i][k])
    ensures Concat(es) == Keep(text, IsLetter)
    ensures forall i :: 1 <= i < |es| ==> es[i] != []
  {
    var pieces := SplitWs(Keep(text, LetterOrSpace));
    WordPiecesLetters(text);
    LetterPiecesTrimmed(pieces);
    TrimEach(pieces)
  }

  /** Where word-mode text is cut: when anything is kept, the elements are the
      kept text cut at each of its runs of spaces. */
  lemma WordElementsCut(text: string) returns (gaps: seq<string>)
    requires Keep(text, LetterOrSpace) != []
    ensures WsCut(Keep(text, LetterOrSpace), WordElements(text), gaps)
  {
    WordPiecesLetters(text);
    LetterPiecesTrimmed(SplitWs(Keep(text, LetterOrSpace)));
    gaps := SplitWsCut(Keep(text, LetterOrSpace));
  }

  /** Conversely, elements that cut the kept text at its runs of spaces are the
      word-mode elements. */
  lemma CutWordElements(text: string, elements: seq<string>, gaps: seq<string>)
    requires Keep(text, LetterOrSpace) != []
    requires WsCut(Keep(text, LetterOrSpace), elements, gaps)
    ensures WordElements(text) == elements
  {
    WordPiecesLetters(text);
    LetterPiecesTrimmed(SplitWs(Keep(text, LetterOrSpace)));
    WsCutSplit(Keep(text, LetterOrSpace), elements, gaps);
  }

  /** Pieces made of letters only are already trimmed. */
  lemma LetterPiecesTrimmed(pieces: seq<string>)
    requires forall i, k :: 0 <= i < |pieces| && 0 <= k < |pieces[i]| ==> IsLetter(pieces[i][k])
    ensures TrimEach(pieces) == pieces
  {
    forall i | 0 <= i < |pieces|
      ensures TrimEach(pieces)[i] == pieces[i]
    {
      assert IsTrimmed(pieces[i]) by {
        if pieces[i] != [] {
          assert IsLetter(pieces[i][0]) && IsLetter(pieces[i][|pieces[i]| - 1]);
        }
      }
    }
  }

  lemma WordPiecesLetters(text: string)
    ensures var pieces := SplitWs(Keep(text, LetterOrSpace));
            (forall i, k :: 0 <= i < |pieces| && 0 <= k < |pieces[i]| ==> IsLetter(pieces[i][k]))
            && Concat(pieces) == Keep(text, IsLetter)
  {
    var pieces := SplitWs(Keep(text, LetterOrSpace));
    KeepKeep(text, LetterOrSpace, NotWs, IsLetter);
    forall i, k | 0 <= i < |pieces| && 0 <= k < |pieces[i]|
      ensures IsLetter(pieces[i][k])
    {
      ConcatMember(pieces, i, k);
      KeepMember(text, IsLetter, pieces[i][k]);
    }
  }

  /** Sentence mode: `replaceAll("\\s+", " ").split("(?<=[!.?])")`, each piece
      trimmed. */
  function SentenceElements(text: string): (es: seq<string>)
    ensures forall i :: 0 <= i < |es| ==> IsTrimmed(es[i])
  {
    TrimEach(SplitAfterEnd(CollapseWs(text)))
  }

  /** Every sentence element is trimmed and holds a terminator at most as its
      last character; every element but the last is a whole sentence ending with
      its terminator; and no visible character of the text is lost, added or
      reordered. More precisely, the collapsed text, where every whitespace run
      of the text stands as one space, is the elements in order with only
      characters `trim()` removes around and between them (`gaps`). */
  lemma SentenceElementsShape(text: string) returns (gaps: seq<string>)
    ensures |SentenceElements(text)| >= 1
    ensures EndShaped(SentenceElements(text))
    ensures Keep(Concat(SentenceElements(text)), Visible) == Keep(text, Visible)
    ensures |gaps| == |SentenceElements(text)| + 1
    ensures forall i :: 0 <= i < |gaps| ==> AllTrimmable(gaps[i])
    ensures CollapseWs(text) == Weave(gaps, SentenceElements(text))
  {
    var pieces := SplitAfterEnd(CollapseWs(text));
    TrimEachSentences(pieces);
    KeepConcatTrim(pieces);
    VisibleNotWs();
    CollapseWsKeep(text, Visible);
    gaps := TrimEachWeave(pieces);
  }

  /** Every character is one `trim()` removes. */
  predicate AllTrimmable(g: string) {
    forall k :: 0 <= k < |g| ==> g[k] <= ' '
  }

  lemma AllTrimmableAppend(a: string, b: string)
    requires AllTrimmable(a) && AllTrimmable(b)
    ensures AllTrimmable(a + b)
  {
    assert forall k :: |a| <= k < |a + b| ==> (a + b)[k] == b[k - |a|];
  }

  /** Trimming each piece only takes off what then lies between the trimmed
      pieces: the pieces spell the trimmed pieces woven with the trimmed-off
      characters. */
  lemma {:induction false} TrimEachWeave(ps: seq<string>) returns (gaps: seq<string>)
    ensures |gaps| == |ps| + 1
    ensures forall i :: 0 <= i < |gaps| ==> AllTrimmable(gaps[i])
    ensures Concat(ps) == Weave(gaps, TrimEach(ps))
    decreases |ps|
  {
    if ps == [] {
      gaps := [[]];
    } else {
      var rest := TrimEachWeave(ps[1..]);
      gaps := TrimWeaveCons(ps, rest);
    }
  }

  lemma TrimWeaveCons(ps: seq<string>, rest: seq<string>) returns (gaps: seq<string>)
    requires ps != []
    requires |rest| == |ps|
    requires forall i :: 0 <= i < |rest| ==> AllTrimmable(rest[i])
    requires Concat(ps[1..]) == Weave(rest, TrimEach(ps[1..]))
    ensures |gaps| == |ps| + 1
    ensures forall i :: 0 <= i < |gaps| ==> AllTrimmable(gaps[i])
    ensures Concat(ps) == Weave(gaps, TrimEach(ps))
  {
    var p := ps[0];
    var i, j := TrimBounds(p);
    var tail := [p[j..] + rest[0]] + rest[1..];
    gaps := [p[..i]] + tail;
    AllTrimmableAppend(p[j..], rest[0]);
    assert forall k :: 1 <= k < |rest| ==> gaps[k + 1] == rest[k];
    TrimWeaveStep(ps, i, j, rest, gaps);
  }

  lemma TrimWeaveStep(ps: seq<string>, i: nat, j: nat, rest: seq<string>, gaps: seq<string>)
    requires ps != [] && |rest| == |ps|
    requires i <= j <= |ps[0]| && Trim(ps[0]) == ps[0][i..j]
    requires gaps == [ps[0][..i]] + ([ps[0][j..] + rest[0]] + rest[1..])
    requires Concat(ps[1..]) == Weave(rest, TrimEach(ps[1..]))
    ensures Concat(ps) == Weave(gaps, TrimEach(ps))
  {
    var p := ps[0];
    var tail := [p[j..] + rest[0]] + rest[1..];
    var ts := TrimEach(ps[1..]);
    TrimEachTail(ps);
    WeaveFirstGap(p[j..], rest, ts);
    assert gaps[1..] == tail && TrimEach(ps)[0] == p[i..j];
    calc {
      Weave(gaps, TrimEach(ps));
      p[..i] + p[i..j] + Weave(tail, ts);
      p[..i] + p[i..j] + (p[j..] + Concat(ps[1..]));
      { AppendAssoc(p[..i] + p[i..j], p[j..], Concat(ps[1..])); }
      (p[..i] + p[i..j] + p[j..]) + Concat(ps[1..]);
      { assert p[..i] + p[i..j] + p[j..] == p; }
      p + Concat(ps[1..]);
    }
  }

  lemma VisibleNotWs()
    ensures forall c :: IsWs(c) ==> !Visible(c)
  {
  }

  /** Trimming each sentence piece keeps the pieces' terminator shape. */
  lemma TrimEachSentences(pieces: seq<string>)
    requires EndShaped(pieces)
    ensures EndShaped(TrimEach(pieces))
  {
    var r := TrimEach(pieces);
    forall i | 0 <= i < |r|
      ensures EndsOnlyAtEnd(r[i])
      ensures i < |r| - 1 ==> r[i] != [] && IsSentenceEnd(r[i][|r[i]| - 1])
    {
      assert r[i] == Trim(pieces[i]);
      TrimKeepsEnd(pieces[i]);
    }
  }

  /** Trimming a piece keeps a final terminator final and adds no other. */
  lemma TrimKeepsEnd(p: string)
    requires EndsOnlyAtEnd(p)
    ensures EndsOnlyAtEnd(Trim(p))
    ensures p != [] && IsSentenceEnd(p[|p| - 1]) ==> Trim(p) != [] && Trim(p)[|Trim(p)| - 1] == p[|p| - 1]
  {
    var i, j := TrimBounds(p);
    EndsSlice(p, i, j);
    if p != [] && IsSentenceEnd(p[|p| - 1]) {
      assert j == |p|;
      assert i < j;
      assert p[i..j][j - i - 1] == p[|p| - 1];
    }
  }

  /** A slice of a piece with no inner terminator has none either. */
  lemma EndsSlice(p: string, i: nat, j: nat)
    requires i <= j <= |p|
    requires EndsOnlyAtEnd(p)
    ensures EndsOnlyAtEnd(p[i..j])
  {
    var t := p[i..j];
    forall k | 0 <= k < |t| - 1
      ensures !IsSentenceEnd(t[k])
    {
      assert t[k] == p[i + k];
    }
  }

  /** Trimming removes no visible character. */
  lemma TrimVisible(p: string)
    ensures Keep(Trim(p), Visible) == Keep(p, Visible)
  {
    TrimStartVisible(p);
    TrimEndVisible(TrimStart(p));
  }

  lemma {:induction false} TrimStartVisible(s: string)
    ensures Keep(TrimStart(s), Visible) == Keep(s, Visible)
  {
    if s != [] && s[0] <= ' ' {
      TrimStartVisible(s[1..]);
    }
  }

  lemma {:induction false} TrimEndVisible(s: string)
    ensures Keep(TrimEnd(s), Visible) == Keep(s, Visible)
  {
    if s != [] && s[|s| - 1] <= ' ' {
      var init := s[..|s| - 1];
      TrimEndVisible(init);
      assert s == init + [s[|s| - 1]];
      KeepAppend(init, [s[|s| - 1]], Visible);
      assert Keep([s[|s| - 1]], Visible) == [];
    }
  }

  lemma {:induction false} KeepConcatTrim(ps: seq<string>)
    ensures Keep(Concat(TrimEach(ps)), Visible) == Keep(Concat(ps), Visible)
  {
    if ps != [] {
      var t := TrimEach(ps);
      KeepConcatTrim(ps[1..]);
      TrimEachTail(ps);
      assert Concat(t) == Trim(ps[0]) + Concat(TrimEach(ps[1..]));
      assert Concat(ps) == ps[0] + Concat(ps[1..]);
      TrimVisible(ps[0]);
      KeepAppend(Trim(ps[0]), Concat(TrimEach(ps[1..])), Visible);
      KeepAppend(ps[0], Concat(ps[1..]), Visible);
    }
  }

  /** The elements `addNewElements` adds, in order, for the current mode. */
  function NewElements(mode: Mode, text: string): (es: seq<string>)
    ensures forall i :: 0 <= i < |es| ==> IsTrimmed(es[i])
  {
    match mode
    case Words =>
      var es := WordElements(text);
      assert forall i :: 0 <= i < |es| ==> IsTrimmed(es[i]) by {
        forall i | 0 <= i < |es| ensures IsTrimmed(es[i]) {
          if es[i] != [] {
            assert IsLetter(es[i][0]) && IsLetter(es[i][|es[i]| - 1]);
          }
        }
      }
      es
    case Sentences => SentenceElements(text)
  }

  // ---------------------------------------------------------------------------
  // The lines of the file

  /** A line as `addElement` writes it: non-empty, trimmed and upper-case. */
  predicate NormalLine(s: string) {
    s != [] && IsTrimmed(s) && IsUpperCase(s)
  }

  predicate AllNormal(lines: seq<string>) {
    forall i :: 0 <= i < |lines| ==> NormalLine(lines[i])
  }

  /** The invariant of the list file. */
  predicate WellFormed(lines: seq<string>) {
    AllNormal(lines) && Distinct(lines)
  }

  /** The test of `removeElement`: the trimmed line equals the element, ignoring case. */
  predicate Matches(line: string, element: string) {
    EqualsIgnoreCase(Trim(line), element)
  }

  /** Index of the first line that matches the element, or |lines| when none does. */
  function FirstMatch(lines: seq<string>, element: string): (k: nat)
    ensures k <= |lines|
  {
    if lines == [] then 0
    else if Matches(lines[0], element) then 0
    else 1 + FirstMatch(lines[1..], element)
  }

  /** The line at `FirstMatch` matches, and no line before it does. */
  lemma FirstMatchSpec(lines: seq<string>, element: string)
    ensures FirstMatch(lines, element) < |lines| ==> Matches(lines[FirstMatch(lines, element)], element)
    ensures forall j :: 0 <= j < FirstMatch(lines, element) ==> !Matches(lines[j], element)
  {
    FirstMatchFound(lines, element);
    forall j | 0 <= j < FirstMatch(lines, element)
      ensures !Matches(lines[j], element)
    {
      FirstMatchBefore(lines, element, j);
    }
  }

  lemma {:induction false} FirstMatchFound(lines: seq<string>, element: string)
    ensures FirstMatch(lines, element) < |lines| ==> Matches(lines[FirstMatch(lines, element)], element)
  {
    if lines != [] && !Matches(lines[0], element) {
      var rest := lines[1..];
      FirstMatchFound(rest, element);
      assert FirstMatch(lines, element) == FirstMatch(rest, element) + 1;
    }
  }

  lemma {:induction false} FirstMatchBefore(lines: seq<string>, element: string, j: nat)
    requires j < FirstMatch(lines, element)
    ensures !Matches(lines[j], element)
  {
    if j > 0 {
      var rest := lines[1..];
      assert FirstMatch(lines, element) == FirstMatch(rest, element) + 1;
      FirstMatchBefore(rest, element, j - 1);
      assert lines[j] == rest[j - 1];
    }
  }

  /** `removeElement`: copies the file line by line, skipping the first line that
      matches the element and upper-casing every line it writes. At most one
      line goes, and on lines as the file holds them it is `List.remove` of the
      upper-cased element. */
  function RemoveElement(lines: seq<string>, element: string): (r: seq<string>)
    ensures |lines| - 1 <= |r| <= |lines|
    ensures AllNormal(lines) ==> r == RemoveFirst(lines, Upper(element))
  {
    if lines == [] then []
    else
      RemoveHeadNormal(lines, element);
      if Matches(lines[0], element) then UpperEach(lines[1..])
      else [Upper(lines[0])] + RemoveElement(lines[1..], element)
  }

  /** On normal lines the first line matches exactly when it is the upper-cased
      element, and upper-casing leaves every line as it is. */
  lemma RemoveHeadNormal(lines: seq<string>, element: string)
    requires lines != []
    ensures AllNormal(lines) ==>
              (Matches(lines[0], element) <==> lines[0] == Upper(element))
              && Upper(lines[0]) == lines[0] && UpperEach(lines[1..]) == lines[1..]
              && AllNormal(lines[1..])
  {
    if AllNormal(lines) {
      MatchesNormal(lines[0], element);
      UpperFixed(lines[0]);
      UpperEachFixed(lines[1..]);
    }
  }

  /** `removeElement` drops only the line at the first match; the lines before
      and after it keep their order, upper-cased. */
  lemma {:induction false} RemoveElementAt(lines: seq<string>, element: string)
    ensures var k := FirstMatch(lines, element);
            RemoveElement(lines, element)
            == UpperEach(lines[..k]) + (if k < |lines| then UpperEach(lines[k + 1..]) else [])
  {
    if lines != [] {
      if Matches(lines[0], element) {
        assert FirstMatch(lines, element) == 0;
        assert UpperEach(lines[..0]) == [];
        assert RemoveElement(lines, element) == [] + UpperEach(lines[1..]);
      } else {
        RemoveElementAt(lines[1..], element);
        RemoveElementAtStep(lines, element);
      }
    }
  }

  /** The step of RemoveElementAt past a first line that does not match. */
  lemma RemoveElementAtStep(lines: seq<string>, element: string)
    requires lines != [] && !Matches(lines[0], element)
    requires var k := FirstMatch(lines[1..], element);
             RemoveElement(lines[1..], element)
             == UpperEach(lines[1..][..k]) + (if k < |lines[1..]| then UpperEach(lines[1..][k + 1..]) else [])
    ensures var k := FirstMatch(lines, element);
            RemoveElement(lines, element)
            == UpperEach(lines[..k]) + (if k < |lines| then UpperEach(lines[k + 1..]) else [])
  {
    var rest := lines[1..];
    var k := FirstMatch(rest, element);
    assert FirstMatch(lines, element) == k + 1;
    SliceStep(lines, k);
    var tail := if k < |rest| then UpperEach(rest[k + 1..]) else [];
    assert tail == if k + 1 < |lines| then UpperEach(lines[k + 2..]) else [];
    calc {
      RemoveElement(lines, element);
      [Upper(lines[0])] + RemoveElement(rest, element);
      [Upper(lines[0])] + (UpperEach(rest[..k]) + tail);
      { UpperEachCons(lines[0], rest[..k], tail); }
      UpperEach([lines[0]] + rest[..k]) + tail;
      { assert [lines[0]] + rest[..k] == lines[..k + 1]; }
      UpperEach(lines[..k + 1]) + tail;
    }
  }

  /** The list shrinks by one exactly when some line matches the element. */
  lemma RemoveElementLength(lines: seq<string>, element: string)
    ensures |RemoveElement(lines, element)| == |lines| - 1
            <==> exists i :: 0 <= i < |lines| && Matches(lines[i], element)
  {
    RemoveElementAt(lines, element);
    FirstMatchSpec(lines, element);
  }

  lemma SliceStep<T>(s: seq<T>, k: nat)
    requires k < |s|
    ensures s[..k + 1] == [s[0]] + s[1..][..k]
    ensures k + 1 < |s| ==> s[1..][k + 1..] == s[k + 2..]
  {
  }

  lemma UpperEachCons(line: string, lines: seq<string>, tail: seq<string>)
    ensures [Upper(line)] + (UpperEach(lines) + tail) == UpperEach([line] + lines) + tail
  {
    UpperEachAppend([line], lines);
    assert UpperEach([line]) == [Upper(line)];
  }

  lemma ElemsUpperEach(elements: seq<string>)
    requires elements != []
    ensures Elems(UpperEach(elements)) == {Upper(elements[0])} + Elems(UpperEach(elements[1..]))
  {
    UpperEachCons(elements[0], elements[1..], []);
    assert [elements[0]] + elements[1..] == elements;
    var rest := UpperEach(elements[1..]);
    assert UpperEach(elements) == [Upper(elements[0])] + rest;
    forall x
      ensures x in UpperEach(elements) <==> x == Upper(elements[0]) || x in rest
    {
    }
  }

  lemma UpperEachAppend(a: seq<string>, b: seq<string>)
    ensures UpperEach(a + b) == UpperEach(a) + UpperEach(b)
  {
  }

  /** On lines as the file holds them, an element matches exactly the line that
      equals its upper-cased form. */
  lemma MatchesNormal(line: string, element: string)
    requires NormalLine(line)
    ensures Matches(line, element) <==> line == Upper(element)
  {
    UpperFixed(line);
  }

  lemma {:induction false} UpperEachFixed(lines: seq<string>)
    requires forall i :: 0 <= i < |lines| ==> IsUpperCase(lines[i])
    ensures UpperEach(lines) == lines
  {
    forall i | 0 <= i < |lines|
      ensures UpperEach(lines)[i] == lines[i]
    {
      UpperFixed(lines[i]);
    }
  }

  /** A sub-bag of normal lines is normal. */
  lemma NormalSubBag(a: seq<string>, b: seq<string>)
    requires multiset(a) <= multiset(b)
    requires AllNormal(b)
    ensures AllNormal(a)
  {
    forall i | 0 <= i < |a|
      ensures NormalLine(a[i])
    {
      assert a[i] in multiset(a);
      assert a[i] in b;
    }
  }

  /** `removeElement` once for each of `elements`, in order. */
  function RemoveEach(lines: seq<string>, elements: seq<string>): seq<string>
    decreases |elements|
  {
    if elements == [] then lines
    else RemoveEach(RemoveElement(lines, elements[0]), elements[1..])
  }

  /** One `removeElement` on normal lines is `List.remove` of the upper-cased
      element and leaves normal lines. */
  lemma RemoveStep(lines: seq<string>, element: string)
    requires AllNormal(lines)
    ensures RemoveElement(lines, element) == RemoveFirst(lines, Upper(element))
    ensures AllNormal(RemoveElement(lines, element))
  {
    RemoveFirstSubBag(lines, Upper(element));
    NormalSubBag(RemoveFirst(lines, Upper(element)), lines);
  }

  lemma AllNormalTail(lines: seq<string>)
    requires lines != [] && AllNormal(lines)
    ensures NormalLine(lines[0]) && AllNormal(lines[1..])
  {
  }

  /** Removing normal lines that the file holds takes exactly those copies out. */
  lemma {:induction false} RemoveEachBag(lines: seq<string>, elements: seq<string>)
    requires AllNormal(lines) && AllNormal(elements)
    requires multiset(elements) <= multiset(lines)
    ensures multiset(RemoveEach(lines, elements)) == multiset(lines) - multiset(elements)
    decreases |elements|
  {
    if elements != [] {
      var e := elements[0];
      AllNormalTail(elements);
      UpperFixed(e);
      RemoveStep(lines, e);
      BagStep(elements, lines);
      RemoveEachBag(RemoveFirst(lines, e), elements[1..]);
    }
  }

  /** Removing elements from a well-formed file keeps it well-formed and takes out
      exactly the lines equal to an upper-cased element. */
  lemma {:induction false} RemoveEachWellFormed(lines: seq<string>, elements: seq<string>)
    requires WellFormed(lines)
    ensures WellFormed(RemoveEach(lines, elements))
    ensures Elems(RemoveEach(lines, elements)) == Elems(lines) - Elems(UpperEach(elements))
    decreases |elements|
  {
    if elements != [] {
      var u := Upper(elements[0]);
      RemoveStep(lines, elements[0]);
      var next := RemoveFirst(lines, u);
      RemoveFirstDistinct(lines, u);
      RemoveEachWellFormed(next, elements[1..]);
      ElemsUpperEach(elements);
    }
  }

  // ---------------------------------------------------------------------------
  // clearRepeats

  /** The repeats `clearRepeats` records while reading the file: each line equal
      (exactly) to one read before it, in file order. `seen` is `foundWords`. */
  function RepeatsFrom(lines: seq<string>, seen: set<string>): seq<string> {
    if lines == [] then []
    else (if lines[0] in seen then [lines[0]] else []) + RepeatsFrom(lines[1..], seen + {lines[0]})
  }

  function Repeats(lines: seq<string>): seq<string> {
    RepeatsFrom(lines, {})
  }

  /** A value is recorded once for every occurrence but the first one not
      already seen. */
  lemma {:induction false} RepeatsCount(lines: seq<string>, seen: set<string>)
    ensures forall x :: multiset(RepeatsFrom(lines, seen))[x]
                        == multiset(lines)[x] - (if x in lines && x !in seen then 1 else 0)
  {
    if lines != [] {
      var rest := lines[1..];
      var head := if lines[0] in seen then [lines[0]] else [];
      RepeatsCount(rest, seen + {lines[0]});
      assert lines == [lines[0]] + rest;
      assert multiset(lines) == multiset{lines[0]} + multiset(rest);
      assert multiset(RepeatsFrom(lines, seen)) == multiset(head) + multiset(RepeatsFrom(rest, seen + {lines[0]}));
      forall x
        ensures multiset(RepeatsFrom(lines, seen))[x]
                == multiset(lines)[x] - (if x in lines && x !in seen then 1 else 0)
      {
        if x == lines[0] {
          assert multiset(head)[x] == if x in seen then 1 else 0;
          assert multiset(lines)[x] == multiset(rest)[x] + 1;
        } else {
          assert multiset(head)[x] == 0;
          assert multiset(lines)[x] == multiset(rest)[x];
          assert x in lines <==> x in rest;
        }
      }
    }
  }

  /** `clearRepeats`: reads the repeats, then calls `removeElement` once for
      each. On normal lines it leaves every line exactly once: the result is
      duplicate-free, holds the same lines, and only drops copies; a
      duplicate-free file is left as it is. */
  function ClearRepeats(lines: seq<string>): (r: seq<string>)
    ensures AllNormal(lines) ==> WellFormed(r) && Elems(r) == Elems(lines) && multiset(r) <= multiset(lines)
    ensures Distinct(lines) ==> r == lines
  {
    RemoveRepeats(lines);
    RemoveEach(lines, Repeats(lines))
  }

  /** Removing the repeats of normal lines leaves each line once; a
      duplicate-free file has no repeats. */
  lemma RemoveRepeats(lines: seq<string>)
    ensures var r := RemoveEach(lines, Repeats(lines));
            AllNormal(lines) ==> WellFormed(r) && Elems(r) == Elems(lines) && multiset(r) <= multiset(lines)
    ensures Distinct(lines) ==> RemoveEach(lines, Repeats(lines)) == lines
  {
    var reps := Repeats(lines);
    RepeatsCount(lines, {});
    if AllNormal(lines) {
      RepeatsBag(lines, reps);
      NormalSubBag(reps, lines);
      RemoveEachBag(lines, reps);
      var r := RemoveEach(lines, reps);
      OnceEach(lines, r);
      NormalSubBag(r, lines);
    }
    if Distinct(lines) {
      NoRepeats(lines, reps);
    }
  }

  /** The removal matches ignoring case but the repeats are found by exact
      equality, so on lines that differ only in case `clearRepeats` can leave a
      duplicate: the lowercase line is the first match for the repeat and is the
      one removed. The list file never holds such lines. */
  lemma ClearRepeatsCaseMismatch()
    ensures ClearRepeats(["a", "A", "A"]) == ["A", "A"]
  {
    var lines := ["a", "A", "A"];
    var reps := ["A"];
    MismatchRepeats();
    assert ClearRepeats(lines) == RemoveEach(lines, reps);
    assert reps[1..] == [];
    assert RemoveEach(lines, reps) == RemoveEach(RemoveElement(lines, "A"), []);
    MismatchRemove();
  }

  /** Only the second "A" repeats a line read before it. */
  lemma MismatchRepeats()
    ensures Repeats(["a", "A", "A"]) == ["A"]
  {
    assert "A" != "a";
    assert "A" in {"a", "A"};
    assert RepeatsFrom(["A"], {"a", "A"}) == ["A"] + RepeatsFrom([], {"a", "A"});
    assert RepeatsFrom(["A", "A"], {"a"}) == RepeatsFrom(["A"], {"a", "A"});
    assert "a" !in {};
    assert {} + {"a"} == {"a"};
    assert RepeatsFrom(["a", "A", "A"], {}) == RepeatsFrom(["A", "A"], {"a"});
  }

  /** The lowercase line is the first to match "A". */
  lemma MismatchRemove()
    ensures RemoveElement(["a", "A", "A"], "A") == ["A", "A"]
  {
    assert Trim("a") == "a";
    assert Matches("a", "A");
    assert Upper("A") == "A";
    assert UpperEach(["A", "A"]) == ["A", "A"];
  }

  // ---------------------------------------------------------------------------
  // The editing operations

  /** `addElement`: appends the upper-cased element as a new last line unless it
      is empty, then runs `clearRepeats`. Adding a trimmed element to a
      well-formed file keeps it well-formed; the lines afterwards are the old
      ones plus the upper-cased element, if it is not empty. */
  function AddElement(lines: seq<string>, element: string): (r: seq<string>)
    ensures WellFormed(lines) && IsTrimmed(element) ==>
              WellFormed(r) && Elems(r) == Elems(lines) + (if element != [] then {Upper(element)} else {})
  {
    AppendNormal(lines, element);
    ClearRepeats(if element != [] then lines + [Upper(element)] else lines)
  }

  /** The upper-cased trimmed element, appended to normal lines, is a normal line. */
  lemma AppendNormal(lines: seq<string>, element: string)
    ensures AllNormal(lines) && IsTrimmed(element) && element != [] ==>
              AllNormal(lines + [Upper(element)]) && Elems(lines + [Upper(element)]) == Elems(lines) + {Upper(element)}
  {
    if AllNormal(lines) && IsTrimmed(element) && element != [] {
      UpperTrimmed(element);
      UpperFixed(element);
      assert NormalLine(Upper(element));
      assert Elems(lines + [Upper(element)]) == Elems(lines) + {Upper(element)};
    }
  }

  /** Adding an element the file already holds moves it to the end; adding a new
      one appends it; nothing else changes. */
  lemma AddElementMovesToEnd(lines: seq<string>, element: string)
    requires WellFormed(lines)
    requires IsTrimmed(element) && element != []
    ensures AddElement(lines, element) == RemoveFirst(lines, Upper(element)) + [Upper(element)]
  {
    var u := Upper(element);
    UpperTrimmed(element);
    UpperFixed(element);
    var s := lines + [u];
    assert AddElement(lines, element) == RemoveEach(s, Repeats(s));
    AppendedRepeats(lines, u);
    if u in lines {
      RemoveAppended(lines, u);
    }
  }

  /** The only repeat of a duplicate-free file with one line appended is that
      line, if the file already held it. */
  lemma AppendedRepeats(lines: seq<string>, u: string)
    requires Distinct(lines)
    ensures Repeats(lines + [u]) == if u in lines then [u] else []
  {
    RepeatsCount(lines + [u], {});
    AppendRepeat(lines, u, Repeats(lines + [u]));
  }

  /** Removing a normal line that the file holds, from the file with that line
      appended, removes its earlier copy. */
  lemma RemoveAppended(lines: seq<string>, u: string)
    requires AllNormal(lines) && NormalLine(u) && u in lines
    ensures RemoveEach(lines + [u], [u]) == RemoveFirst(lines, u) + [u]
  {
    var s := lines + [u];
    assert AllNormal(s);
    UpperFixed(u);
    RemoveFirstAppend(lines, [u], u);
    assert RemoveEach(s, [u]) == RemoveEach(RemoveElement(s, u), []);
  }

  /** Adding the empty element leaves a well-formed file unchanged. */
  lemma AddEmptyElement(lines: seq<string>)
    requires WellFormed(lines)
    ensures AddElement(lines, []) == lines
  {
  }

  /** `addElement` for each element in turn. */
  function AddEach(lines: seq<string>, elements: seq<string>): seq<string>
    decreases |elements|
  {
    if elements == [] then lines
    else AddEach(AddElement(lines, elements[0]), elements[1..])
  }

  /** `addNewElements`: the text split for the current mode, then each element
      added. It keeps the file well-formed and adds exactly the upper-cased
      non-empty elements of the text. */
  function AddNewElements(lines: seq<string>, mode: Mode, text: string): (r: seq<string>)
    ensures WellFormed(lines) ==>
              WellFormed(r) && Elems(r) == Elems(lines) + NewLines(NewElements(mode, text))
  {
    var es := NewElements(mode, text);
    if WellFormed(lines) then
      AddEachWellFormed(lines, es);
      AddEach(lines, es)
    else
      AddEach(lines, es)
  }

  /** The lines the non-empty elements become. */
  function NewLines(elements: seq<string>): set<string> {
    set e | e in elements && e != [] :: Upper(e)
  }

  /** Adding trimmed elements keeps the file well-formed; afterwards it holds
      its old lines and one line per distinct non-empty element, upper-cased. */
  lemma {:induction false} AddEachWellFormed(lines: seq<string>, elements: seq<string>)
    requires WellFormed(lines)
    requires forall i :: 0 <= i < |elements| ==> IsTrimmed(elements[i])
    ensures WellFormed(AddEach(lines, elements))
    ensures Elems(AddEach(lines, elements)) == Elems(lines) + NewLines(elements)
    decreases |elements|
  {
    if elements != [] {
      var e := elements[0];
      AddEachWellFormed(AddElement(lines, e), elements[1..]);
      NewLinesCons(elements);
    }
  }

  lemma NewLinesCons(elements: seq<string>)
    requires elements != []
    ensures NewLines(elements) == (if elements[0] != [] then {Upper(elements[0])} else {}) + NewLines(elements[1..])
  {
    assert elements == [elements[0]] + elements[1..];
  }

  /** `clearFile`: the file is deleted and created again, empty: well-formed and
      holding no line. */
  function ClearFile(lines: seq<string>): (r: seq<string>)
    ensures WellFormed(r) && Elems(r) == {}
  {
    []
  }

  /** A cleared file is well-formed and holds no line, so the next element added
      becomes its only line. */
  lemma ClearThenAdd(lines: seq<string>, element: string)
    requires IsTrimmed(element) && element != []
    ensures WellFormed(ClearFile(lines)) && Elems(ClearFile(lines)) == {}
    ensures AddElement(ClearFile(lines), element) == [Upper(element)]
  {
    AddElementMovesToEnd([], element);
  }

  /** The delete-selected branch of `onOptionsItemSelected`: `removeElement`
      once for each checked entry. Deleting from a well-formed file keeps it
      well-formed, leaves exactly the lines no checked entry names, and only
      drops lines. */
  function DeleteSelected(lines: seq<string>, checked: seq<string>): (r: seq<string>)
    ensures WellFormed(lines) ==>
              WellFormed(r) && Elems(r) == Elems(lines) - Elems(UpperEach(checked))
              && multiset(r) <= multiset(lines)
  {
    if WellFormed(lines) then
      RemoveEachWellFormed(lines, checked);
      RemoveEachSubBag(lines, checked);
      RemoveEach(lines, checked)
    else
      RemoveEach(lines, checked)
  }

  lemma {:induction false} RemoveEachSubBag(lines: seq<string>, elements: seq<string>)
    requires AllNormal(lines)
    ensures multiset(RemoveEach(lines, elements)) <= multiset(lines)
    decreases |elements|
  {
    if elements != [] {
      RemoveStep(lines, elements[0]);
      var next := RemoveFirst(lines, Upper(elements[0]));
      RemoveFirstSubBag(lines, Upper(elements[0]));
      RemoveEachSubBag(next, elements[1..]);
    }
  }

  // ---------------------------------------------------------------------------
  // Checked entries

  /** The entries checked for deletion and whether "delete selected" shows. */
  datatype Selection = Selection(checked: seq<string>, deleteVisible: bool)

  /** `onListItemCheckedChanged`: checking appends the entry, unchecking removes
      one occurrence of it; "delete selected" shows exactly while some entry is
      checked. */
  function OnListItemCheckedChanged(checked: seq<string>, element: string, add: bool): (s: Selection)
    ensures add ==> s.checked == checked + [element]
    ensures !add ==> multiset(s.checked) == multiset(checked) - multiset{element}
    ensures !add && element !in checked ==> s.checked == checked
    ensures s.deleteVisible <==> exists x :: x in s.checked
  {
    var next := if add then checked + [element] else RemoveFirst(checked, element);
    RemoveFirstBag(checked, element);
    assert next != [] ==> next[0] in next;
    Selection(next, |next| > 0)
  }

  /** Checking an entry and then unchecking it restores the checked entries'
      multiset. */
  lemma CheckUncheck(checked: seq<string>, element: string)
    ensures var s := OnListItemCheckedChanged(checked, element, true);
            multiset(OnListItemCheckedChanged(s.checked, element, false).checked) == multiset(checked)
  {
    var s := OnListItemCheckedChanged(checked, element, true);
    assert element in s.checked;
    RemoveFirstBag(s.checked, element);
  }
}
