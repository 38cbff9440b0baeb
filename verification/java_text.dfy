/**
  The Java `String` and regular-expression behaviour the game and the list editor
  rely on, spelled out: the `\s` class, `trim()`, `toUpperCase()`,
  `equalsIgnoreCase`, `replaceAll` with a character class, `split("\\s+")` and
  the look-behind split `split("(?<=[!.?])")`.

  Case mapping is ASCII only: `a`..`z` become `A`..`Z` and every other character
  is left alone.
 */
module JavaText {
  import opened Seqs

  // ---------------------------------------------------------------------------
  // Character classes

  /** Java's `\s` without the UNICODE_CHARACTER_CLASS flag: space, tab, line feed,
      vertical tab, form feed and carriage return (code points 9 to 13 and 32). */
  predicate IsWs(c: char) {
    c == ' ' || '\t' <= c <= '\r'
  }

  predicate NotWs(c: char) {
    !IsWs(c)
  }

  predicate NoWs(s: string) {
    forall i :: 0 <= i < |s| ==> !IsWs(s[i])
  }

  /** The sentence terminators of the class `[!.?]`. */
  predicate IsSentenceEnd(c: char) {
    c == '!' || c == '.' || c == '?'
  }

  // ---------------------------------------------------------------------------
  // replaceAll("[^...]", "")

  /** `s.replaceAll("[^C]", "")` for a class C: the characters of `s` that `keep`
      accepts, in order. */
  function Keep(s: string, keep: char -> bool): (r: string)
    ensures |r| <= |s|
    ensures forall i :: 0 <= i < |r| ==> keep(r[i])
  {
    if s == [] then []
    else (if keep(s[0]) then [s[0]] else []) + Keep(s[1..], keep)
  }

  lemma {:induction false} KeepAppend(a: string, b: string, keep: char -> bool)
    ensures Keep(a + b, keep) == Keep(a, keep) + Keep(b, keep)
  {
    if a == [] {
      assert a + b == b;
    } else {
      assert (a + b)[1..] == a[1..] + b;
      KeepAppend(a[1..], b, keep);
    }
  }

  /** Keeping from a string cut in two is keeping from each part. */
  lemma KeepSplit(s: string, n: nat, keep: char -> bool)
    requires n <= |s|
    ensures Keep(s, keep) == Keep(s[..n], keep) + Keep(s[n..], keep)
  {
    assert s == s[..n] + s[n..];
    KeepAppend(s[..n], s[n..], keep);
  }

  lemma {:induction false} KeepAll(s: string, keep: char -> bool)
    requires forall i :: 0 <= i < |s| ==> keep(s[i])
    ensures Keep(s, keep) == s
  {
    if s != [] {
      KeepAll(s[1..], keep);
    }
  }

  /** Keeping by `p` and then by `q` keeps what both accept. */
  lemma {:induction false} KeepKeep(s: string, p: char -> bool, q: char -> bool, both: char -> bool)
    requires forall c :: both(c) == (p(c) && q(c))
    ensures Keep(Keep(s, p), q) == Keep(s, both)
  {
    if s != [] {
      KeepKeep(s[1..], p, q, both);
      KeepAppend(if p(s[0]) then [s[0]] else [], Keep(s[1..], p), q);
    }
  }

  /** Every character of a kept string is one `keep` accepts. */
  lemma KeepMember(s: string, keep: char -> bool, c: char)
    requires c in Keep(s, keep)
    ensures keep(c)
  {
  }

  lemma {:induction false} KeepNone(s: string, keep: char -> bool)
    requires forall i :: 0 <= i < |s| ==> !keep(s[i])
    ensures Keep(s, keep) == []
  {
    if s != [] {
      KeepNone(s[1..], keep);
    }
  }

  // ---------------------------------------------------------------------------
  // Case

  predicate IsLower(c: char) {
    'a' <= c <= 'z'
  }

  /** `Character.toUpperCase` restricted to ASCII. */
  function UpperChar(c: char): char {
    if IsLower(c) then (c as int - 32) as char else c
  }

  /** `String.toUpperCase()` restricted to ASCII: same length, and no lower-case
      letter left; each of `a`..`z` becomes its capital and every other
      character is kept. */
  function Upper(s: string): (r: string)
    ensures |r| == |s| && IsUpperCase(r)
    ensures forall i :: 0 <= i < |s| ==>
              (IsLower(s[i]) ==> r[i] as int == s[i] as int - 32) && (!IsLower(s[i]) ==> r[i] == s[i])
  {
    seq(|s|, i requires 0 <= i < |s| => UpperChar(s[i]))
  }

  /** Every string of `ts` upper-cased, in order. */
  function UpperEach(ts: seq<string>): seq<string> {
    seq(|ts|, i requires 0 <= i < |ts| => Upper(ts[i]))
  }

  lemma {:induction false} ConcatUpperEach(ts: seq<string>)
    ensures Concat(UpperEach(ts)) == Upper(Concat(ts))
  {
    if ts != [] {
      ConcatUpperEach(ts[1..]);
      assert UpperEach(ts)[1..] == UpperEach(ts[1..]);
      UpperAppend(ts[0], Concat(ts[1..]));
    }
  }

  /** Holds no lower-case letter. */
  predicate IsUpperCase(s: string) {
    forall i :: 0 <= i < |s| ==> !IsLower(s[i])
  }

  /** Upper-casing leaves exactly the upper-case strings unchanged, and always
      produces one. */
  lemma UpperFixed(s: string)
    ensures IsUpperCase(Upper(s))
    ensures Upper(s) == s <==> IsUpperCase(s)
  {
    if IsUpperCase(s) {
      assert Upper(s) == s;
    }
    if Upper(s) == s {
      assert forall i :: 0 <= i < |s| ==> s[i] == UpperChar(s[i]);
    }
  }

  lemma UpperAppend(a: string, b: string)
    ensures Upper(a + b) == Upper(a) + Upper(b)
  {
  }

  /** `String.equalsIgnoreCase` restricted to ASCII: same length, and the
      characters agree position by position once upper-cased, compared from
      the start. Equal ignoring case means equal once upper-cased. */
  predicate EqualsIgnoreCase(a: string, b: string)
    ensures EqualsIgnoreCase(a, b) <==> Upper(a) == Upper(b)
  {
    UpperEqCons(a, b);
    |a| == |b| && (a == [] || (UpperChar(a[0]) == UpperChar(b[0]) && EqualsIgnoreCase(a[1..], b[1..])))
  }

  /** Two strings of one length upper-case to the same string exactly when their
      first characters do and their tails do. */
  lemma UpperEqCons(a: string, b: string)
    ensures |a| == |b| && a != [] ==>
              (Upper(a) == Upper(b) <==> UpperChar(a[0]) == UpperChar(b[0]) && Upper(a[1..]) == Upper(b[1..]))
  {
    if |a| == |b| && a != [] {
      UpperCons(a);
      UpperCons(b);
      if Upper(a) == Upper(b) {
        assert Upper(a)[0] == Upper(b)[0];
        assert Upper(a)[1..] == Upper(b)[1..];
      }
    }
  }

  lemma UpperCons(s: string)
    requires s != []
    ensures Upper(s) == [UpperChar(s[0])] + Upper(s[1..])
  {
  }

  // ---------------------------------------------------------------------------
  // trim()

  /** Drops the leading characters `trim()` removes (code point at most a space). */
  function TrimStart(s: string): (r: string)
    ensures |r| <= |s|
  {
    if s != [] && s[0] <= ' ' then TrimStart(s[1..]) else s
  }

  /** `TrimStart` keeps a suffix, drops only characters at most a space, and
      stops at the first character above one. */
  lemma {:induction false} TrimStartSpec(s: string)
    ensures TrimStart(s) == s[|s| - |TrimStart(s)|..]
    ensures forall i :: 0 <= i < |s| - |TrimStart(s)| ==> s[i] <= ' '
    ensures TrimStart(s) == [] || TrimStart(s)[0] > ' '
  {
    if s != [] && s[0] <= ' ' {
      var t := s[1..];
      TrimStartSpec(t);
      assert t[|t| - |TrimStart(t)|..] == s[|s| - |TrimStart(t)|..];
      forall i | 0 <= i < |s| - |TrimStart(s)|
        ensures s[i] <= ' '
      {
        if i > 0 {
          assert s[i] == t[i - 1];
        }
      }
    }
  }

  /** Drops the trailing characters `trim()` removes. */
  function TrimEnd(s: string): (r: string)
    ensures |r| <= |s|
  {
    if s != [] && s[|s| - 1] <= ' ' then TrimEnd(s[..|s| - 1]) else s
  }

  /** `TrimEnd` keeps a prefix, drops only characters at most a space, and
      stops at the last character above one. */
  lemma {:induction false} TrimEndSpec(s: string)
    ensures TrimEnd(s) == s[..|TrimEnd(s)|]
    ensures forall i :: |TrimEnd(s)| <= i < |s| ==> s[i] <= ' '
    ensures TrimEnd(s) == [] || TrimEnd(s)[|TrimEnd(s)| - 1] > ' '
  {
    if s != [] && s[|s| - 1] <= ' ' {
      var t := s[..|s| - 1];
      TrimEndSpec(t);
      assert t[..|TrimEnd(t)|] == s[..|TrimEnd(t)|];
      forall i | |TrimEnd(s)| <= i < |s|
        ensures s[i] <= ' '
      {
        if i < |s| - 1 {
          assert s[i] == t[i];
        }
      }
    }
  }

  /** Neither starts nor ends with a character `trim()` removes. */
  predicate IsTrimmed(s: string) {
    s == [] || (s[0] > ' ' && s[|s| - 1] > ' ')
  }

  /** `String.trim()`: removes every leading and trailing character whose code
      point is at most a space. */
  function Trim(s: string): (r: string)
    ensures |r| <= |s| && IsTrimmed(r)
    ensures IsTrimmed(s) ==> r == s
  {
    var t := TrimStart(s);
    TrimStartSpec(s);
    TrimEndSpec(t);
    assert TrimEnd(t) != [] ==> TrimEnd(t)[0] == t[0];
    TrimEnd(t)
  }

  /** What `Trim` keeps is the slice `s[i..j]`, and everything it drops on either
      side is at most a space. */
  lemma TrimBounds(s: string) returns (i: nat, j: nat)
    ensures i <= j <= |s| && Trim(s) == s[i..j]
    ensures forall k :: 0 <= k < i ==> s[k] <= ' '
    ensures forall k :: j <= k < |s| ==> s[k] <= ' '
  {
    var t := TrimStart(s);
    var r := TrimEnd(t);
    TrimStartSpec(s);
    TrimEndSpec(t);
    i := |s| - |t|;
    j := i + |r|;
    assert r == s[i..j];
    assert forall k :: j <= k < |s| ==> s[k] <= ' ' by {
      forall k | j <= k < |s| ensures s[k] <= ' ' {
        assert s[k] == t[k - i];
      }
    }
  }

  /** Upper-casing never changes whether a character is one `trim()` removes. */
  lemma UpperTrimmed(s: string)
    requires IsTrimmed(s)
    ensures IsTrimmed(Upper(s))
  {
  }

  // ---------------------------------------------------------------------------
  // Whitespace runs

  /** Drops the leading whitespace run. */
  function SkipWs(s: string): (r: string)
    ensures |r| <= |s|
    ensures r == [] || !IsWs(r[0])
    ensures s != [] && IsWs(s[0]) ==> |r| < |s|
  {
    if s != [] && IsWs(s[0]) then SkipWs(s[1..]) else s
  }

  /** Length of the leading run of characters that are not whitespace. */
  function WordLength(s: string): (n: nat)
    ensures n <= |s|
    ensures forall i :: 0 <= i < n ==> !IsWs(s[i])
    ensures n < |s| ==> IsWs(s[n])
  {
    if s == [] || IsWs(s[0]) then 0 else 1 + WordLength(s[1..])
  }

  lemma {:induction false} WordLengthPrefix(a: string, b: string)
    requires NoWs(a)
    requires b == [] || IsWs(b[0])
    ensures WordLength(a + b) == |a|
  {
    if a != [] {
      assert (a + b)[1..] == a[1..] + b;
      WordLengthPrefix(a[1..], b);
    } else {
      assert a + b == b;
    }
  }

  /** `s.replaceAll("\\s+", " ")`: every whitespace run becomes one space. Read
      character by character, a whitespace character that another one follows is
      dropped and the last one of its run becomes a space; every other character
      is kept. The result is never longer than the text. */
  function CollapseWs(s: string): (r: string)
    ensures |r| <= |s|
  {
    if s == [] then []
    else if IsWs(s[0]) && |s| > 1 && IsWs(s[1]) then CollapseWs(s[1..])
    else [if IsWs(s[0]) then ' ' else s[0]] + CollapseWs(s[1..])
  }

  /** The only whitespace is single spaces, never two in a row. */
  predicate SingleSpaced(c: string) {
    (forall i :: 0 <= i < |c| && IsWs(c[i]) ==> c[i] == ' ')
    && (forall i :: 0 <= i < |c| - 1 ==> !(IsWs(c[i]) && IsWs(c[i + 1])))
  }

  lemma SingleSpacedCons(x: char, c: string)
    requires SingleSpaced(c)
    requires IsWs(x) ==> x == ' ' && (c == [] || !IsWs(c[0]))
    ensures SingleSpaced([x] + c)
  {
    var r := [x] + c;
    assert forall i :: 1 <= i < |r| ==> r[i] == c[i - 1];
  }

  /** After collapsing, the only whitespace is single spaces, never two in a row. */
  lemma {:induction false} CollapseWsShape(s: string)
    ensures SingleSpaced(CollapseWs(s))
  {
    if s != [] {
      var t := s[1..];
      CollapseWsShape(t);
      if !(IsWs(s[0]) && |s| > 1 && IsWs(s[1])) {
        var x := if IsWs(s[0]) then ' ' else s[0];
        assert t != [] ==> t[0] == s[1];
        SingleSpacedCons(x, CollapseWs(t));
      }
    }
  }

  /** Collapsing keeps every character that is not whitespace, in order: the
      characters any class without whitespace accepts are the same before and
      after. */
  lemma {:induction false} CollapseWsKeep(s: string, keep: char -> bool)
    requires forall c :: IsWs(c) ==> !keep(c)
    ensures Keep(CollapseWs(s), keep) == Keep(s, keep)
  {
    if s != [] {
      var t := s[1..];
      CollapseWsKeep(t, keep);
      if !(IsWs(s[0]) && |s| > 1 && IsWs(s[1])) {
        var x := if IsWs(s[0]) then ' ' else s[0];
        KeepAppend([x], CollapseWs(t), keep);
        assert Keep([x], keep) == if keep(s[0]) then [s[0]] else [];
      }
    }
  }

  /** Every character is whitespace. */
  predicate AllWs(s: string) {
    forall i :: 0 <= i < |s| ==> IsWs(s[i])
  }

  /** `a` followed by `b` does not join two whitespace characters: the cut
      between them does not fall inside a whitespace run. */
  predicate NoRunAcross(a: string, b: string) {
    a == [] || b == [] || !IsWs(a[|a| - 1]) || !IsWs(b[0])
  }

  /** Collapsing works piece by piece wherever the cut does not fall inside a
      whitespace run. */
  lemma {:induction false} CollapseWsAppend(a: string, b: string)
    requires NoRunAcross(a, b)
    ensures CollapseWs(a + b) == CollapseWs(a) + CollapseWs(b)
  {
    if a == [] {
      assert a + b == b;
    } else {
      var t := a[1..];
      assert a == [a[0]] + t;
      assert t != [] ==> t[|t| - 1] == a[|a| - 1];
      CollapseWsAppend(t, b);
      CollapseWsAppendStep(a[0], t, b);
    }
  }

  lemma CollapseWsAppendStep(c: char, t: string, b: string)
    requires NoRunAcross([c] + t, b)
    requires CollapseWs(t + b) == CollapseWs(t) + CollapseWs(b)
    ensures CollapseWs([c] + t + b) == CollapseWs([c] + t) + CollapseWs(b)
  {
    var tb := t + b;
    assert [c] + t + b == [c] + tb;
    assert t != [] ==> tb[0] == t[0];
    var dropped := IsWs(c) && t != [] && IsWs(t[0]);
    assert dropped == (IsWs(c) && tb != [] && IsWs(tb[0]));
    CollapseWsCons(c, tb);
    CollapseWsCons(c, t);
    if !dropped {
      var x := [if IsWs(c) then ' ' else c];
      calc {
        CollapseWs([c] + tb);
        x + CollapseWs(tb);
        x + (CollapseWs(t) + CollapseWs(b));
        { AppendAssoc(x, CollapseWs(t), CollapseWs(b)); }
        (x + CollapseWs(t)) + CollapseWs(b);
      }
    }
  }

  /** One step of collapsing: a whitespace character that another one follows
      is dropped, any other whitespace character becomes a space, and every
      other character is kept. */
  lemma CollapseWsCons(c: char, u: string)
    ensures CollapseWs([c] + u)
            == if IsWs(c) && u != [] && IsWs(u[0]) then CollapseWs(u)
               else [if IsWs(c) then ' ' else c] + CollapseWs(u)
  {
    var s := [c] + u;
    assert s[0] == c && s[1..] == u;
  }

  /** A non-empty whitespace run that `b` does not continue becomes one space. */
  lemma {:induction false} CollapseWsGap(w: string, b: string)
    requires w != [] && AllWs(w)
    requires b == [] || !IsWs(b[0])
    ensures CollapseWs(w + b) == " " + CollapseWs(b)
  {
    var wb := w + b;
    assert wb[0] == w[0] && wb[1..] == w[1..] + b;
    if |w| == 1 {
      assert wb[1..] == b;
    } else {
      assert wb[1] == w[1];
      CollapseWsGap(w[1..], b);
    }
  }

  /** Each whitespace run becomes a single space where the run stood: for a
      non-empty run `w` that neither `a` before it nor `b` after it continues,
      collapsing `a + w + b` collapses `a` and `b` and puts one space between. */
  lemma CollapseWsRun(a: string, w: string, b: string)
    requires w != [] && AllWs(w)
    requires a == [] || !IsWs(a[|a| - 1])
    requires b == [] || !IsWs(b[0])
    ensures CollapseWs(a + w + b) == CollapseWs(a) + " " + CollapseWs(b)
  {
    var wb := w + b;
    assert a + w + b == a + wb;
    CollapseWsGap(w, b);
    assert wb[0] == w[0];
    CollapseWsAppend(a, wb);
    assert CollapseWs(a + wb) == CollapseWs(a) + (" " + CollapseWs(b));
  }

  /** Text that is already single-spaced is left as it is; in particular text
      without whitespace is unchanged. */
  lemma {:induction false} CollapseWsFixed(s: string)
    requires SingleSpaced(s)
    ensures CollapseWs(s) == s
  {
    if s != [] {
      var t := s[1..];
      assert SingleSpaced(t) by {
        assert forall i :: 0 <= i < |t| ==> t[i] == s[i + 1];
      }
      CollapseWsFixed(t);
      assert |s| > 1 ==> s[1] == t[0];
    }
  }

  /** Collapsing twice is collapsing once. */
  lemma CollapseWsIdempotent(s: string)
    ensures CollapseWs(CollapseWs(s)) == CollapseWs(s)
  {
    CollapseWsShape(s);
    CollapseWsFixed(CollapseWs(s));
  }

  /** Text made only of whitespace is skipped entirely. */
  lemma SkipAllWs(w: string)
    requires AllWs(w)
    ensures SkipWs(w) == []
  {
  }

  /** Skipping the leading run of `a + b` skips that of `a`, unless all of `a`
      is whitespace and the run goes on into `b`. */
  lemma {:induction false} SkipWsAppend(a: string, b: string)
    requires SkipWs(a) != [] || b == [] || !IsWs(b[0])
    ensures SkipWs(a + b) == SkipWs(a) + b
    decreases |a|
  {
    if a == [] {
      assert a + b == b;
    } else if IsWs(a[0]) {
      var ab := a + b;
      assert ab[0] == a[0];
      assert ab[1..] == a[1..] + b;
      assert SkipWs(ab) == SkipWs(ab[1..]);
      assert SkipWs(a) == SkipWs(a[1..]);
      SkipWsAppend(a[1..], b);
    } else {
      assert (a + b)[0] == a[0];
    }
  }

  /** A leading whitespace run holds nothing a class without whitespace keeps. */
  lemma SkipWsKeep(s: string, keep: char -> bool)
    requires forall c :: IsWs(c) ==> !keep(c)
    ensures Keep(s, keep) == Keep(SkipWs(s), keep)
  {
    var g := LeadingRun(s);
    KeepAppend(g, SkipWs(s), keep);
    KeepNone(g, keep);
  }

  // ---------------------------------------------------------------------------
  // split

  /** Java's `split` with limit 0 drops trailing empty strings. */
  function DropTrailingEmpty(ps: seq<string>): (r: seq<string>)
    ensures |r| <= |ps| && r == ps[..|r|]
    ensures forall i :: |r| <= i < |ps| ==> ps[i] == []
    ensures r == [] || r[|r| - 1] != []
  {
    if ps != [] && ps[|ps| - 1] == [] then DropTrailingEmpty(ps[..|ps| - 1]) else ps
  }

  lemma {:induction false} DropTrailingEmptyConcat(ps: seq<string>)
    ensures Concat(DropTrailingEmpty(ps)) == Concat(ps)
  {
    if ps != [] && ps[|ps| - 1] == [] {
      var init := ps[..|ps| - 1];
      DropTrailingEmptyConcat(init);
      assert ps == init + [[]];
      ConcatAppend(init, [[]]);
      var empty: seq<string> := [[]];
      assert Concat(empty) == [] + Concat(empty[1..]);
    }
  }

  /** The pieces `Pattern.split` cuts `s` into at each whitespace run, before
      trailing empty pieces are dropped: a leading run yields an empty first piece,
      a trailing run an empty last one. */
  function WsPieces(s: string): (ps: seq<string>)
    ensures |ps| >= 1
    decreases |s|
  {
    var n := WordLength(s);
    if n == |s| then [s] else [s[..n]] + WsPieces(SkipWs(s[n..]))
  }

  /** Every piece is free of whitespace. */
  lemma {:induction false} WsPiecesNoWs(s: string)
    ensures forall i :: 0 <= i < |WsPieces(s)| ==> NoWs(WsPieces(s)[i])
    decreases |s|
  {
    var n := WordLength(s);
    if n < |s| {
      var rest := SkipWs(s[n..]);
      WsPiecesNoWs(rest);
      assert WsPieces(s) == [s[..n]] + WsPieces(rest);
    }
  }

  /** One unfolding of `WsPieces` when `s` contains whitespace. */
  lemma WsPiecesUnfold(s: string)
    requires WordLength(s) < |s|
    ensures WsPieces(s) == [s[..WordLength(s)]] + WsPieces(SkipWs(s[WordLength(s)..]))
  {
  }

  /** `s` is its first word (of length `n`), the whitespace run after it, and
      the rest. */
  lemma WordGapRest(s: string, n: nat)
    requires n <= |s|
    requires NoWs(s[..n])
    ensures Keep(s, NotWs) == s[..n] + Keep(SkipWs(s[n..]), NotWs)
  {
    KeepSplit(s, n, NotWs);
    WordKeep(s[..n]);
    GapKeep(s[n..]);
  }

  lemma WordKeep(w: string)
    requires NoWs(w)
    ensures Keep(w, NotWs) == w
  {
    KeepAll(w, NotWs);
  }

  lemma GapKeep(t: string)
    ensures Keep(t, NotWs) == Keep(SkipWs(t), NotWs)
  {
    SkipWsKeep(t, NotWs);
  }

  lemma ConcatCons<T>(a: seq<T>, rest: seq<seq<T>>)
    ensures Concat([a] + rest) == a + Concat(rest)
  {
    assert ([a] + rest)[1..] == rest;
  }

  /** Together the pieces spell the characters of `s` that are not whitespace. */
  lemma {:induction false} WsPiecesConcat(s: string)
    ensures Concat(WsPieces(s)) == Keep(s, NotWs)
    decreases |s|
  {
    var n := WordLength(s);
    if n == |s| {
      KeepAll(s, NotWs);
      ConcatCons(s, []);
    } else {
      var rest := SkipWs(s[n..]);
      WsPiecesConcat(rest);
      WsPiecesUnfold(s);
      ConcatCons(s[..n], WsPieces(rest));
      assert NoWs(s[..n]);
      WordGapRest(s, n);
    }
  }

  /** From a start that is not whitespace, every piece but the last is non-empty. */
  lemma {:induction false} WsPiecesNonEmpty(s: string)
    requires s == [] || !IsWs(s[0])
    ensures forall i :: 0 <= i < |WsPieces(s)| - 1 ==> WsPieces(s)[i] != []
    ensures s != [] ==> WsPieces(s)[0] != []
    decreases |s|
  {
    var n := WordLength(s);
    if n < |s| {
      var rest := SkipWs(s[n..]);
      WsPiecesNonEmpty(rest);
      assert WsPieces(s) == [s[..n]] + WsPieces(rest);
    }
  }

  /** The pieces of text that holds whitespace, once trailing empty ones are
      dropped: free of whitespace, non-empty after the first, and spelling the
      non-whitespace characters of `s`. */
  lemma {:induction false} SplitPiecesContent(s: string)
    requires WordLength(s) < |s|
    ensures forall i :: 0 <= i < |DropTrailingEmpty(WsPieces(s))| ==> NoWs(DropTrailingEmpty(WsPieces(s))[i])
    ensures forall i :: 1 <= i < |DropTrailingEmpty(WsPieces(s))| ==> DropTrailingEmpty(WsPieces(s))[i] != []
    ensures Concat(DropTrailingEmpty(WsPieces(s))) == Keep(s, NotWs)
  {
    var ps := WsPieces(s);
    var r := DropTrailingEmpty(ps);
    assert forall i :: 0 <= i < |r| ==> NoWs(r[i]) by {
      WsPiecesNoWs(s);
      assert forall i :: 0 <= i < |r| ==> r[i] == ps[i];
    }
    assert Concat(r) == Keep(s, NotWs) by {
      WsPiecesConcat(s);
      DropTrailingEmptyConcat(ps);
    }
    SplitPiecesInner(s);
  }

  lemma SplitPiecesInner(s: string)
    requires WordLength(s) < |s|
    ensures forall i :: 1 <= i < |DropTrailingEmpty(WsPieces(s))| ==> DropTrailingEmpty(WsPieces(s))[i] != []
  {
    var n := WordLength(s);
    var rest := SkipWs(s[n..]);
    WsPiecesUnfold(s);
    WsPiecesNonEmpty(rest);
    InnerNonEmpty(s[..n], WsPieces(rest));
  }

  /** Once trailing empty pieces are dropped, a piece after the first is empty
      only if it was an empty inner piece. */
  lemma InnerNonEmpty(first: string, tail: seq<string>)
    requires forall i :: 0 <= i < |tail| - 1 ==> tail[i] != []
    ensures forall i :: 1 <= i < |DropTrailingEmpty([first] + tail)| ==> DropTrailingEmpty([first] + tail)[i] != []
  {
    var ps := [first] + tail;
    var r := DropTrailingEmpty(ps);
    forall i | 1 <= i < |r|
      ensures r[i] != []
    {
      assert r[i] == ps[i] == tail[i - 1];
    }
  }

  /** Every character of a piece occurs in the concatenation. */
  lemma {:induction false} ConcatMember(ps: seq<string>, i: nat, k: nat)
    requires i < |ps| && k < |ps[i]|
    ensures ps[i][k] in Concat(ps)
  {
    if i > 0 {
      ConcatMember(ps[1..], i - 1, k);
    }
  }

  /** Pieces that concatenate to nothing are all empty. */
  lemma {:induction false} ConcatEmpty(ps: seq<string>)
    requires Concat(ps) == []
    ensures forall i :: 0 <= i < |ps| ==> ps[i] == []
  {
    if ps != [] {
      ConcatEmpty(ps[1..]);
      assert forall i :: 1 <= i < |ps| ==> ps[i] == ps[1..][i - 1];
    }
  }

  /** A non-empty concatenation has a non-empty piece. */
  lemma {:induction false} ConcatNonEmpty(ps: seq<string>)
    requires Concat(ps) != []
    ensures exists i :: 0 <= i < |ps| && ps[i] != []
  {
    if ps[0] == [] {
      ConcatNonEmpty(ps[1..]);
      var i :| 0 <= i < |ps[1..]| && ps[1..][i] != [];
      assert ps[i + 1] != [];
    }
  }

  /** `s.split("\\s+")`. Text without whitespace comes back whole (so `""` gives
      `[""]`); otherwise the text is cut at each whitespace run, a leading run
      leaves an empty first token, and trailing empty tokens are dropped, so text
      made only of whitespace gives no tokens at all. */
  function SplitWs(s: string): (r: seq<string>)
    ensures forall i :: 0 <= i < |r| ==> NoWs(r[i])
    ensures forall i :: 1 <= i < |r| ==> r[i] != []
    ensures Concat(r) == Keep(s, NotWs)
    ensures s == [] ==> r == [[]]
    ensures s != [] && IsWs(s[0]) && Keep(s, NotWs) != [] ==> |r| >= 2 && r[0] == []
    ensures s != [] && Keep(s, NotWs) == [] ==> r == []
    ensures NoWs(s) ==> r == [s]
  {
    if WordLength(s) == |s| then
      KeepAll(s, NotWs);
      ConcatCons(s, []);
      [s]
    else
      SplitPiecesContent(s);
      SplitPiecesEdges(s);
      DropTrailingEmpty(WsPieces(s))
  }

  /** What a leading whitespace run, or text made only of whitespace, leaves. */
  lemma {:induction false} SplitPiecesEdges(s: string)
    requires WordLength(s) < |s|
    ensures IsWs(s[0]) && Keep(s, NotWs) != [] ==>
              |DropTrailingEmpty(WsPieces(s))| >= 2 && DropTrailingEmpty(WsPieces(s))[0] == []
    ensures Keep(s, NotWs) == [] ==> DropTrailingEmpty(WsPieces(s)) == []
  {
    SplitPiecesContent(s);
    var r := DropTrailingEmpty(WsPieces(s));
    if Keep(s, NotWs) == [] {
      if r != [] {
        ConcatEmpty(r);
      }
    } else if IsWs(s[0]) {
      ConcatNonEmpty(r);
      WsPiecesUnfold(s);
      assert r[0] == [];
    }
  }

  // ---------------------------------------------------------------------------
  // Where split cuts

  /** `s` is `tokens` with the whitespace runs `gaps` around them, the way
      `split("\\s+")` leaves non-empty text: tokens free of whitespace and gaps
      made only of whitespace; the text starts with the first token, which is
      empty exactly when the text starts with a run; the tokens after the first
      and the runs between tokens are non-empty; the last token is non-empty and a
      trailing run, if any, is the last gap. With no tokens the text is one run. */
  predicate WsCut(s: string, tokens: seq<string>, gaps: seq<string>) {
    |gaps| == |tokens| + 1
    && (forall i :: 0 <= i < |tokens| ==> NoWs(tokens[i]))
    && (forall i :: 0 <= i < |gaps| ==> AllWs(gaps[i]))
    && (forall i :: 1 <= i < |tokens| ==> tokens[i] != [] && gaps[i] != [])
    && (tokens != [] ==> gaps[0] == [] && tokens[|tokens| - 1] != [])
    && s == Weave(gaps, tokens)
  }

  lemma AllWsAppend(a: string, b: string)
    requires AllWs(a) && AllWs(b)
    ensures AllWs(a + b)
  {
    assert forall i :: |a| <= i < |a + b| ==> (a + b)[i] == b[i - |a|];
  }

  /** The whitespace runs around the pieces of `WsPieces`: one between each two
      pieces, none before the first or after the last. */
  predicate PieceGaps(s: string, pieces: seq<string>, gaps: seq<string>) {
    |gaps| == |pieces| + 1
    && gaps[0] == [] && gaps[|gaps| - 1] == []
    && (forall i :: 0 <= i < |gaps| ==> AllWs(gaps[i]))
    && (forall i :: 1 <= i < |gaps| - 1 ==> gaps[i] != [])
    && s == Weave(gaps, pieces)
  }

  /** Putting a word and a non-empty run in front of pieces with their runs. */
  lemma PieceGapsCons(w: string, g: string, rest: string, pieces: seq<string>, gs: seq<string>)
    returns (gaps: seq<string>)
    requires pieces != [] && PieceGaps(rest, pieces, gs)
    requires g != [] && AllWs(g)
    ensures PieceGaps(w + g + rest, [w] + pieces, gaps)
  {
    var tail := [g + gs[0]] + gs[1..];
    gaps := [[]] + tail;
    WeaveFirstGap(g, gs, pieces);
    assert gaps[1..] == tail && ([w] + pieces)[1..] == pieces;
    assert g + gs[0] == g;
    assert gaps[|gaps| - 1] == gs[|gs| - 1];
    assert forall i :: 1 <= i < |gs| ==> gaps[i + 1] == gs[i];
  }

  lemma {:induction false} WsPiecesGaps(s: string) returns (gaps: seq<string>)
    ensures PieceGaps(s, WsPieces(s), gaps)
    decreases |s|
  {
    var n := WordLength(s);
    if n == |s| {
      gaps := [[], []];
      assert WsPieces(s) == [s];
      assert Weave(gaps, [s]) == [] + s + Weave(gaps[1..], []);
    } else {
      var rest := SkipWs(s[n..]);
      var g := WordGap(s, n);
      var gs := WsPiecesGaps(rest);
      WsPiecesUnfold(s);
      gaps := PieceGapsCons(s[..n], g, rest, WsPieces(rest), gs);
    }
  }

  /** The whitespace run after the first word: what lies between the word and
      the rest of the text. */
  lemma WordGap(s: string, n: nat) returns (g: string)
    requires n == WordLength(s) < |s|
    ensures g != [] && AllWs(g)
    ensures s == s[..n] + g + SkipWs(s[n..])
  {
    g := LeadingRun(s[n..]);
    assert s == s[..n] + s[n..];
  }

  /** The leading whitespace run that `SkipWs` drops. */
  lemma {:induction false} LeadingRun(t: string) returns (g: string)
    ensures AllWs(g) && t == g + SkipWs(t)
    ensures t != [] && IsWs(t[0]) ==> g != []
    decreases |t|
  {
    if t != [] && IsWs(t[0]) {
      var h := LeadingRun(t[1..]);
      g := [t[0]] + h;
      assert t == [t[0]] + t[1..];
      assert forall i :: 1 <= i < |g| ==> g[i] == h[i - 1];
    } else {
      g := [];
    }
  }

  /** Dropping trailing empty pieces merges the runs around them into the last
      gap; the text and the gaps before it stay as they were. */
  lemma {:induction false} DropTrailingEmptyGaps(ps: seq<string>, gaps: seq<string>) returns (kept: seq<string>)
    requires |gaps| == |ps| + 1
    requires forall i :: 0 <= i < |gaps| ==> AllWs(gaps[i])
    ensures |kept| == |DropTrailingEmpty(ps)| + 1
    ensures forall i :: 0 <= i < |kept| ==> AllWs(kept[i])
    ensures forall i :: 0 <= i < |kept| - 1 ==> kept[i] == gaps[i]
    ensures Weave(kept, DropTrailingEmpty(ps)) == Weave(gaps, ps)
    decreases |ps|
  {
    if ps != [] && ps[|ps| - 1] == [] {
      var m := |ps| - 1;
      var merged := gaps[..m] + [gaps[m] + gaps[m + 1]];
      WeaveEmptyLast(gaps, ps);
      AllWsAppend(gaps[m], gaps[m + 1]);
      kept := DropTrailingEmptyGaps(ps[..m], merged);
    } else {
      kept := gaps;
    }
  }

  /** Where `split` cuts non-empty text: exactly at its whitespace runs. */
  lemma SplitWsCut(s: string) returns (gaps: seq<string>)
    requires s != []
    ensures WsCut(s, SplitWs(s), gaps)
  {
    var r := SplitWs(s);
    if WordLength(s) == |s| {
      gaps := [[], []];
      assert Weave(gaps, [s]) == [] + s + Weave(gaps[1..], []);
    } else {
      var ps := WsPieces(s);
      var inner := WsPiecesGaps(s);
      assert PieceGaps(s, ps, inner);
      gaps := DropTrailingEmptyGaps(ps, inner);
      forall i | 1 <= i < |r|
        ensures gaps[i] != []
      {
        assert gaps[i] == inner[i];
      }
    }
  }

  /** Split's result for non-empty text is its pieces without the trailing empty ones. */
  lemma SplitWsPieces(s: string)
    requires s != []
    ensures SplitWs(s) == DropTrailingEmpty(WsPieces(s))
  {
  }

  /** A piece put in front of pieces that keep something after the drop survives it. */
  lemma {:induction false} DropTrailingEmptyCons(x: string, ps: seq<string>)
    requires DropTrailingEmpty(ps) != []
    ensures DropTrailingEmpty([x] + ps) == [x] + DropTrailingEmpty(ps)
    decreases |ps|
  {
    var xps := [x] + ps;
    if ps[|ps| - 1] == [] {
      var init := ps[..|ps| - 1];
      assert xps[..|xps| - 1] == [x] + init;
      DropTrailingEmptyCons(x, init);
    }
  }

  /** A cut with at least two tokens is its first token, the run after it, and a
      cut of the rest, which starts with the second token. */
  lemma WsCutTail(s: string, tokens: seq<string>, gaps: seq<string>) returns (rest: string)
    requires WsCut(s, tokens, gaps) && |tokens| >= 2
    ensures WsCut(rest, tokens[1..], [[]] + gaps[2..])
    ensures s == tokens[0] + (gaps[1] + rest)
    ensures rest != [] && !IsWs(rest[0])
  {
    var gs: seq<string> := [[]] + gaps[2..];
    var ts := tokens[1..];
    rest := Weave(gs, ts);
    assert gs[1..] == gaps[2..] && ts[1..] == tokens[2..] && gaps[1..][1..] == gaps[2..];
    assert rest == [] + ts[0] + Weave(gaps[2..], tokens[2..]);
    assert Weave(gaps[1..], ts) == gaps[1] + ts[0] + Weave(gaps[2..], tokens[2..]);
    assert ts[0] == tokens[1] && rest[0] == tokens[1][0];
    assert forall i :: 0 <= i < |ts| ==> ts[i] == tokens[i + 1];
    assert forall i :: 1 <= i < |gs| ==> gs[i] == gaps[i + 1];
  }

  /** A word followed by a run, or by nothing, splits into the word alone. */
  lemma SplitWord(t: string, g: string)
    requires t != [] && NoWs(t) && AllWs(g)
    ensures SplitWs(t + g) == [t]
  {
    var s := t + g;
    if g == [] {
      assert s == t;
      WordLengthWhole(t);
    } else {
      WordLengthPrefix(t, g);
      assert s[..|t|] == t && s[|t|..] == g;
      SkipAllWs(g);
      WsPiecesUnfold(s);
      assert WsPieces([]) == [[]];
      assert DropTrailingEmpty([t, []]) == DropTrailingEmpty([t, []][..1]);
    }
  }

  /** A word, a non-empty run, and text that starts a new word: the word is the
      first token and the text gives the rest. */
  lemma SplitWordRest(t: string, g: string, rest: string)
    requires NoWs(t) && g != [] && AllWs(g)
    requires rest != [] && !IsWs(rest[0]) && SplitWs(rest) != []
    ensures SplitWs(t + (g + rest)) == [t] + SplitWs(rest)
  {
    var s := t + (g + rest);
    PiecesWordRest(t, g, rest);
    SplitWsPieces(s);
    SplitWsPieces(rest);
    DropTrailingEmptyCons(t, WsPieces(rest));
  }

  lemma PiecesWordRest(t: string, g: string, rest: string)
    requires NoWs(t) && g != [] && AllWs(g)
    requires rest == [] || !IsWs(rest[0])
    ensures WsPieces(t + (g + rest)) == [t] + WsPieces(rest)
  {
    var s := t + (g + rest);
    WordLengthPrefix(t, g + rest);
    assert s[..|t|] == t && s[|t|..] == g + rest;
    SkipAllWs(g);
    SkipWsAppend(g, rest);
    assert SkipWs(g + rest) == rest;
    WsPiecesUnfold(s);
  }

  lemma WsCutNone(s: string, gaps: seq<string>)
    requires s != [] && WsCut(s, [], gaps)
    ensures SplitWs(s) == []
  {
    assert s == gaps[0];
    KeepNone(s, NotWs);
  }

  lemma WsCutOne(s: string, tokens: seq<string>, gaps: seq<string>)
    requires WsCut(s, tokens, gaps) && |tokens| == 1
    ensures SplitWs(s) == tokens
  {
    assert tokens[1..] == [] && gaps[1..] == [gaps[1]];
    assert s == gaps[0] + tokens[0] + Weave(gaps[1..], tokens[1..]);
    assert s == tokens[0] + gaps[1] && tokens == [tokens[0]];
    SplitWord(tokens[0], gaps[1]);
  }

  lemma WsCutStep(s: string, tokens: seq<string>, g: string, rest: string)
    requires |tokens| >= 2 && s == tokens[0] + (g + rest)
    requires NoWs(tokens[0]) && g != [] && AllWs(g)
    requires rest != [] && !IsWs(rest[0]) && SplitWs(rest) == tokens[1..]
    ensures SplitWs(s) == tokens
  {
    SplitWordRest(tokens[0], g, rest);
    assert tokens == [tokens[0]] + tokens[1..];
  }

  /** Conversely, whenever non-empty text is cut at its whitespace runs, those
      tokens are what `split` returns. */
  lemma {:induction false} WsCutSplit(s: string, tokens: seq<string>, gaps: seq<string>)
    requires s != [] && WsCut(s, tokens, gaps)
    ensures SplitWs(s) == tokens
    decreases |tokens|
  {
    if tokens == [] {
      WsCutNone(s, gaps);
    } else if |tokens| == 1 {
      WsCutOne(s, tokens, gaps);
    } else {
      var rest := WsCutTail(s, tokens, gaps);
      WsCutSplit(rest, tokens[1..], [[]] + gaps[2..]);
      WsCutStep(s, tokens, gaps[1], rest);
    }
  }

  /** Upper-casing text woven from whitespace gaps upper-cases the parts only. */
  lemma {:induction false} UpperWeave(gaps: seq<string>, parts: seq<string>)
    requires |gaps| == |parts| + 1
    requires forall i :: 0 <= i < |gaps| ==> AllWs(gaps[i])
    ensures Upper(Weave(gaps, parts)) == Weave(gaps, UpperEach(parts))
    decreases |parts|
  {
    assert Upper(gaps[0]) == gaps[0];
    if parts != [] {
      UpperWeave(gaps[1..], parts[1..]);
      assert UpperEach(parts)[1..] == UpperEach(parts[1..]);
      UpperAppend(gaps[0] + parts[0], Weave(gaps[1..], parts[1..]));
      UpperAppend(gaps[0], parts[0]);
    }
  }

  /** Upper-casing keeps a cut: the runs stay where they were. */
  lemma WsCutUpper(s: string, tokens: seq<string>, gaps: seq<string>)
    requires WsCut(s, tokens, gaps)
    ensures WsCut(Upper(s), UpperEach(tokens), gaps)
  {
    UpperWeave(gaps, tokens);
    var us := UpperEach(tokens);
    forall i | 0 <= i < |tokens|
      ensures NoWs(us[i]) && (us[i] == [] <==> tokens[i] == [])
    {
    }
  }

  /** Upper-casing commutes with `split`. */
  lemma SplitWsUpper(s: string)
    ensures SplitWs(Upper(s)) == UpperEach(SplitWs(s))
  {
    if s != [] {
      var gaps := SplitWsCut(s);
      WsCutUpper(s, SplitWs(s), gaps);
      WsCutSplit(Upper(s), UpperEach(SplitWs(s)), gaps);
    } else {
      assert Upper(s) == [];
    }
  }

  /** Words joined by single spaces. */
  function JoinSpace(ws: seq<string>): string {
    if ws == [] then [] else if |ws| == 1 then ws[0] else ws[0] + " " + JoinSpace(ws[1..])
  }

  /** Words joined by spaces keep all their characters under a class that
      accepts the space and every character of the words. */
  lemma {:induction false} JoinSpaceKeep(ws: seq<string>, keep: char -> bool)
    requires keep(' ')
    requires forall i, k :: 0 <= i < |ws| && 0 <= k < |ws[i]| ==> keep(ws[i][k])
    ensures Keep(JoinSpace(ws), keep) == JoinSpace(ws)
  {
    if ws == [] {
    } else if |ws| == 1 {
      KeepAll(ws[0], keep);
    } else {
      var j := JoinSpace(ws[1..]);
      assert forall i, k :: 0 <= i < |ws[1..]| && 0 <= k < |ws[1..][i]| ==> ws[1..][i][k] == ws[i + 1][k];
      JoinSpaceKeep(ws[1..], keep);
      KeepAll(ws[0] + " ", keep);
      KeepAppend(ws[0] + " ", j, keep);
    }
  }

  lemma {:induction false} JoinSpaceStart(ws: seq<string>)
    requires |ws| >= 1 && ws[0] != []
    ensures JoinSpace(ws) != [] && JoinSpace(ws)[0] == ws[0][0]
  {
  }

  /** A word with no whitespace is its own first word. */
  lemma WordLengthWhole(s: string)
    requires NoWs(s)
    ensures WordLength(s) == |s|
  {
    WordLengthPrefix(s, []);
    assert s + [] == s;
  }

  /** The space after the first of several joined words ends that word and is
      the whole whitespace run. */
  lemma JoinSpaceCons(ws: seq<string>)
    requires |ws| >= 2
    requires forall i :: 0 <= i < |ws| ==> ws[i] != [] && NoWs(ws[i])
    ensures WordLength(JoinSpace(ws)) == |ws[0]| < |JoinSpace(ws)|
    ensures JoinSpace(ws)[..|ws[0]|] == ws[0]
    ensures SkipWs(JoinSpace(ws)[|ws[0]|..]) == JoinSpace(ws[1..])
  {
    var s := JoinSpace(ws);
    var j := JoinSpace(ws[1..]);
    JoinSpaceStart(ws[1..]);
    assert s == ws[0] + (" " + j);
    WordLengthPrefix(ws[0], " " + j);
    var n := |ws[0]|;
    assert s[n..] == " " + j;
    assert (" " + j)[1..] == j;
  }

  lemma {:induction false} WsPiecesJoin(ws: seq<string>)
    requires |ws| >= 1
    requires forall i :: 0 <= i < |ws| ==> ws[i] != [] && NoWs(ws[i])
    ensures WsPieces(JoinSpace(ws)) == ws
  {
    var s := JoinSpace(ws);
    if |ws| == 1 {
      WordLengthWhole(s);
    } else {
      JoinSpaceCons(ws);
      WsPiecesUnfold(s);
      WsPiecesJoin(ws[1..]);
      assert ws == [ws[0]] + ws[1..];
    }
  }

  /** Splitting words that were joined by single spaces gives the words back. */
  lemma SplitJoin(ws: seq<string>)
    requires |ws| >= 1
    requires forall i :: 0 <= i < |ws| ==> ws[i] != [] && NoWs(ws[i])
    ensures SplitWs(JoinSpace(ws)) == ws
  {
    var s := JoinSpace(ws);
    WsPiecesJoin(ws);
    if |ws| >= 2 {
      var j := JoinSpace(ws[1..]);
      assert s == ws[0] + " " + j;
      assert s[|ws[0]|] == ' ';
      assert WordLength(s) != |s|;
      assert DropTrailingEmpty(ws) == ws;
    }
  }

  /** Index of the first sentence terminator, or |s| when there is none. */
  function FirstEnd(s: string): (i: nat)
    ensures i <= |s|
    ensures forall k :: 0 <= k < i ==> !IsSentenceEnd(s[k])
    ensures i < |s| ==> IsSentenceEnd(s[i])
  {
    if s == [] then 0 else if IsSentenceEnd(s[0]) then 0 else 1 + FirstEnd(s[1..])
  }

  /** The pieces the zero-width pattern `(?<=[!.?])` cuts `s` into, before
      trailing empty pieces are dropped: a cut after every terminator. */
  function EndPieces(s: string): (ps: seq<string>)
    ensures |ps| >= 1
    decreases |s|
  {
    var i := FirstEnd(s);
    if i == |s| then [s] else [s[..i + 1]] + EndPieces(s[i + 1..])
  }

  /** A piece that holds a terminator only as its last character. */
  predicate EndsOnlyAtEnd(p: string) {
    forall k :: 0 <= k < |p| - 1 ==> !IsSentenceEnd(p[k])
  }

  /** One unfolding of `EndPieces` when `s` holds a terminator. */
  lemma EndPiecesUnfold(s: string)
    requires FirstEnd(s) < |s|
    ensures EndPieces(s) == [s[..FirstEnd(s) + 1]] + EndPieces(s[FirstEnd(s) + 1..])
  {
  }

  /** Cutting loses nothing: the pieces spell `s`. */
  lemma {:induction false} EndPiecesConcat(s: string)
    ensures Concat(EndPieces(s)) == s
    decreases |s|
  {
    var i := FirstEnd(s);
    if i == |s| {
      ConcatCons(s, []);
    } else {
      var rest := s[i + 1..];
      EndPiecesConcat(rest);
      EndPiecesUnfold(s);
      ConcatCons(s[..i + 1], EndPieces(rest));
      assert s == s[..i + 1] + rest;
    }
  }

  /** Pieces cut after terminators: each holds a terminator at most at its end,
      and every piece but the last ends with one. */
  predicate EndShaped(ps: seq<string>) {
    (forall i :: 0 <= i < |ps| ==> EndsOnlyAtEnd(ps[i]))
    && (forall i :: 0 <= i < |ps| - 1 ==> ps[i] != [] && IsSentenceEnd(ps[i][|ps[i]| - 1]))
  }

  /** A whole sentence in front of shaped pieces keeps them shaped. */
  lemma EndShapedCons(p: string, ps: seq<string>)
    requires EndsOnlyAtEnd(p) && p != [] && IsSentenceEnd(p[|p| - 1])
    requires EndShaped(ps)
    ensures EndShaped([p] + ps)
  {
    var r := [p] + ps;
    assert forall k :: 1 <= k < |r| ==> r[k] == ps[k - 1];
  }

  /** Each piece holds a terminator at most at its end, and all but the last
      end with one. */
  lemma {:induction false} EndPiecesShape(s: string)
    ensures EndShaped(EndPieces(s))
    decreases |s|
  {
    var i := FirstEnd(s);
    if i < |s| {
      var rest := s[i + 1..];
      EndPiecesShape(rest);
      EndPiecesUnfold(s);
      var p := s[..i + 1];
      assert p[|p| - 1] == s[i];
      assert forall k :: 0 <= k < |p| - 1 ==> p[k] == s[k];
      EndShapedCons(p, EndPieces(rest));
    } else {
      assert EndPieces(s) == [s];
    }
  }

  /** `s.split("(?<=[!.?])")`: the text is cut just after every `!`, `.` or `?`,
      so each terminator stays at the end of its piece. Nothing is lost (the
      pieces spell `s`), every piece but the last ends with a terminator and holds
      no other, the last holds none except at its end, and no piece is empty
      unless `s` is (`""` gives `[""]`). */
  function SplitAfterEnd(s: string): (r: seq<string>)
    ensures |r| >= 1
    ensures Concat(r) == s
    ensures forall i :: 0 <= i < |r| ==> EndsOnlyAtEnd(r[i])
    ensures forall i :: 0 <= i < |r| - 1 ==> r[i] != [] && IsSentenceEnd(r[i][|r[i]| - 1])
    ensures s != [] ==> forall i :: 0 <= i < |r| ==> r[i] != []
    ensures s == [] ==> r == [[]]
  {
    if FirstEnd(s) == |s| then
      ConcatCons(s, []);
      [s]
    else
      EndPiecesConcat(s);
      EndPiecesShape(s);
      SplitEndPieces(s);
      DropTrailingEmpty(EndPieces(s))
  }

  /** Dropping trailing empty pieces keeps at least the first, which is
      non-empty, and leaves every kept piece as it was. */
  lemma {:induction false} SplitEndPieces(s: string)
    requires FirstEnd(s) < |s|
    ensures Concat(DropTrailingEmpty(EndPieces(s))) == s
    ensures |DropTrailingEmpty(EndPieces(s))| >= 1
    ensures forall i :: 0 <= i < |DropTrailingEmpty(EndPieces(s))| ==>
              DropTrailingEmpty(EndPieces(s))[i] == EndPieces(s)[i] != []
  {
    var ps := EndPieces(s);
    var r := DropTrailingEmpty(ps);
    assert Concat(r) == s by {
      EndPiecesConcat(s);
      DropTrailingEmptyConcat(ps);
    }
    assert ps[0] != [] by {
      EndPiecesUnfold(s);
    }
    assert |r| >= 1;
    EndPiecesShape(s);
    forall i | 0 <= i < |r|
      ensures r[i] == ps[i] != []
    {
      if i < |r| - 1 {
        assert i < |ps| - 1;
      }
    }
  }
}
