/**
  `reinforce_text` as written: the distinct letter tokens of the text are
  collected into a set, and for every token longer than four characters the
  whole text is rewritten with `re.sub(r'\b' + token + r'\b', '<strong>' +
  token + '</strong>', text)`, one token after another, in the set's
  iteration order.

  The main result is that this agrees with the single pass of module
  `Emphasis` for every iteration order, as long as the token `strong` is not
  processed after a longer token has already inserted markup; and that when it
  is, the result depends on the order.
*/
module Substitution {
  import opened Chars
  import opened Whitespace
  import opened Emphasis

  // ---------------------------------------------------------------------
  // The token set

  /** `''.join(c if c.isalpha() else ' ' for c in text)` */
  function Mask(s: string): (m: string)
    ensures |m| == |s|
    ensures forall i :: 0 <= i < |s| ==> m[i] == if IsAlpha(s[i]) then s[i] else ' '
  {
    seq(|s|, i requires 0 <= i < |s| => if IsAlpha(s[i]) then s[i] else ' ')
  }

  /** `set(Mask(text).split())`: the distinct tokens the helper iterates over. */
  function Tokens(text: string): set<string> {
    set w | w in Split(Mask(text))
  }

  /** The maximal runs of letters of `s`, in order. */
  function AlphaRuns(s: string): (rs: seq<string>)
    ensures forall i :: 0 <= i < |rs| ==> rs[i] != [] && AllAlpha(rs[i])
    decreases |s|
  {
    if s == [] then []
    else if !IsAlpha(s[0]) then AlphaRuns(s[1..])
    else
      var k := AlphaLen(s);
      [s[..k]] + AlphaRuns(s[k..])
  }

  lemma {:induction false} WordLenExact(m: string, k: nat)
    requires k <= |m|
    requires forall i :: 0 <= i < k ==> !IsSpace(m[i])
    requires k == |m| || IsSpace(m[k])
    ensures WordLen(m) == k
    decreases k
  {
    if k > 0 {
      WordLenExact(m[1..], k - 1);
    }
  }

  /** Splitting the masked text yields exactly the maximal letter runs. */
  lemma {:induction false} TokensAreAlphaRuns(s: string)
    ensures Split(Mask(s)) == AlphaRuns(s)
    decreases |s|
  {
    var m := Mask(s);
    if s == [] {
      assert m == [];
    } else if !IsAlpha(s[0]) {
      assert IsSpace(m[0]);
      assert m[1..] == Mask(s[1..]);
      TokensAreAlphaRuns(s[1..]);
    } else {
      var k := AlphaLen(s);
      forall i | 0 <= i < k
        ensures !IsSpace(m[i])
      {
        AlphaIsWord(s[i]);
        WordIsNotSpace(s[i]);
      }
      WordLenExact(m, k);
      assert m[..k] == s[..k];
      assert m[k..] == Mask(s[k..]);
      TokensAreAlphaRuns(s[k..]);
    }
  }

  /** Every token is a non-empty run of letters. */
  lemma {:induction false} TokensAreWords(text: string)
    ensures forall w :: w in Tokens(text) ==> w != [] && AllAlpha(w)
  {
    TokensAreAlphaRuns(text);
  }

  /** Every word the single pass wraps is one of the tokens. */
  lemma {:induction false} StrongWordsAreRuns(s: string, prevWord: bool)
    ensures forall w :: w in StrongWords(Scan(s, prevWord)) ==> w in AlphaRuns(s)
    decreases |s|
  {
    var ps := Scan(s, prevWord);
    if s == [] {
    } else if !IsAlpha(s[0]) {
      StrongWordsAreRuns(s[1..], IsWordChar(s[0]));
      assert ps[1..] == Scan(s[1..], IsWordChar(s[0]));
      assert StrongWords(ps) == StrongWords(ps[1..]);
    } else {
      var k := AlphaLen(s);
      StrongWordsAreRuns(s[k..], true);
      assert ps[1..] == Scan(s[k..], true);
      assert StrongWords(ps) == (if ps[0].Strong? then [s[..k]] else []) + StrongWords(ps[1..]);
    }
  }

  // ---------------------------------------------------------------------
  // One regular-expression substitution

  /**
    `\b` + `w` + `\b` matches at the start of `s`. For a word `w` made of
    letters, the leading `\b` holds exactly when the preceding character (whose
    word-ness is `prevWord`) is not a word character.
  */
  predicate MatchesAt(s: string, w: string, prevWord: bool) {
    && !prevWord
    && |w| <= |s|
    && s[..|w|] == w
    && (|w| == |s| || !IsWordChar(s[|w|]))
  }

  /**
    `re.sub(r'\b' + w + r'\b', '<strong>' + w + '</strong>', s)`: scans left to
    right, replacing each match and resuming after it.
  */
  function ReSub(s: string, w: string, prevWord: bool): string
    requires w != [] && AllAlpha(w)
    decreases |s|
  {
    if s == [] then []
    else if MatchesAt(s, w, prevWord) then Tag(w) + ReSub(s[|w|..], w, true)
    else [s[0]] + ReSub(s[1..], w, IsWordChar(s[0]))
  }

  predicate Words(order: seq<string>) {
    forall i :: 0 <= i < |order| ==> order[i] != [] && AllAlpha(order[i])
  }

  /**
    The loop of the helper: for each token in iteration order, substitute it if
    it is longer than four characters.
  */
  function SubstituteAll(s: string, order: seq<string>): string
    requires Words(order)
    decreases |order|
  {
    if order == [] then s
    else SubstituteAll(if |order[0]| > 4 then ReSub(s, order[0], false) else s, order[1..])
  }

  /** `order` lists the set `tokens` once each: a possible iteration order of a Python set. */
  ghost predicate IsEnumeration(order: seq<string>, tokens: set<string>) {
    && (forall i, j :: 0 <= i < j < |order| ==> order[i] != order[j])
    && (forall w :: w in order <==> w in tokens)
  }

  /** Every token iterated before `strong` is too short to be wrapped. */
  predicate StrongFirst(order: seq<string>) {
    forall i, j :: 0 <= i < j < |order| && order[j] == TagName ==> |order[i]| <= 4
  }

  /** `reinforce_text(text)` as written, for one iteration order of its token set. */
  function ReinforceAsWritten(text: string, order: seq<string>): string
    requires IsEnumeration(order, Tokens(text))
  {
    EnumeratedWords(text, order);
    Collapse(SubstituteAll(text, order))
  }

  /** Every token in an iteration order is a non-empty run of letters. */
  lemma {:induction false} EnumeratedWords(text: string, order: seq<string>)
    requires IsEnumeration(order, Tokens(text))
    ensures Words(order)
  {
    TokensAreWords(text);
    forall i | 0 <= i < |order|
      ensures order[i] != [] && AllAlpha(order[i])
    {
      assert order[i] in order;
    }
  }

  // ---------------------------------------------------------------------
  // How one substitution acts on text that is already partly wrapped

  lemma {:induction false} NonAlphaStep(c: char, x: string, w: string, prevWord: bool)
    requires w != [] && AllAlpha(w)
    requires !IsAlpha(c)
    ensures ReSub([c] + x, w, prevWord) == [c] + ReSub(x, w, IsWordChar(c))
  {
    var s := [c] + x;
    assert s[0] == c && s[1..] == x;
    if |w| <= |s| {
      assert s[..|w|][0] == c;
    }
  }

  lemma {:induction false} AlphaSkip(q: string, r: string, w: string)
    requires w != [] && AllAlpha(w)
    requires AllAlpha(q)
    ensures ReSub(q + r, w, true) == q + ReSub(r, w, true)
    decreases |q|
  {
    if q == [] {
      assert q + r == r;
    } else {
      var s := q + r;
      assert s[0] == q[0] && s[1..] == q[1..] + r;
      AlphaIsWord(q[0]);
      AlphaSkip(q[1..], r, w);
      assert [q[0]] + (q[1..] + ReSub(r, w, true)) == q + ReSub(r, w, true);
    }
  }

  /** The leading `\b` + `w` + `\b` matches a run of letters exactly when it is `w` with boundaries on both sides. */
  predicate RunHit(p: string, r: string, w: string, prevWord: bool) {
    !prevWord && p == w && (r == [] || !IsWordChar(r[0]))
  }

  lemma {:induction false} RunMatch(p: string, r: string, w: string, prevWord: bool)
    requires w != [] && AllAlpha(w)
    requires p != [] && AllAlpha(p)
    requires r == [] || !IsAlpha(r[0])
    ensures MatchesAt(p + r, w, prevWord) <==> RunHit(p, r, w, prevWord)
  {
    var s := p + r;
    if |w| < |p| {
      assert s[|w|] == p[|w|];
      AlphaIsWord(p[|w|]);
    } else if |w| > |p| {
      if |w| <= |s| {
        assert s[..|w|][|p|] == r[0];
        assert w[|p|] != r[0];
      }
    } else {
      assert s[..|w|] == p;
      if |w| < |s| {
        assert s[|w|] == r[0];
      }
    }
  }

  /**
    One substitution over a maximal run of letters `p`: the run is replaced if
    it is a match, and is otherwise copied; nothing inside it can match.
  */
  lemma {:induction false} RunStep(p: string, r: string, w: string, prevWord: bool)
    requires w != [] && AllAlpha(w)
    requires p != [] && AllAlpha(p)
    requires r == [] || !IsAlpha(r[0])
    ensures ReSub(p + r, w, prevWord)
         == (if RunHit(p, r, w, prevWord) then Tag(w) else p) + ReSub(r, w, true)
  {
    RunMatch(p, r, w, prevWord);
    if RunHit(p, r, w, prevWord) {
      RunReplaced(p, r, w, prevWord);
    } else {
      RunCopied(p, r, w, prevWord);
    }
  }

  lemma {:induction false} RunReplaced(p: string, r: string, w: string, prevWord: bool)
    requires w != [] && AllAlpha(w)
    requires MatchesAt(p + r, w, prevWord) && p == w
    ensures ReSub(p + r, w, prevWord) == Tag(w) + ReSub(r, w, true)
  {
    assert (p + r)[|w|..] == r;
  }

  lemma {:induction false} RunCopied(p: string, r: string, w: string, prevWord: bool)
    requires w != [] && AllAlpha(w)
    requires p != [] && AllAlpha(p)
    requires !MatchesAt(p + r, w, prevWord)
    ensures ReSub(p + r, w, prevWord) == p + ReSub(r, w, true)
  {
    var s := p + r;
    assert s[0] == p[0] && s[1..] == p[1..] + r;
    AlphaIsWord(p[0]);
    AlphaSkip(p[1..], r, w);
    assert [p[0]] + (p[1..] + ReSub(r, w, true)) == p + ReSub(r, w, true);
  }

  /** Two characters that are not word characters pass through. */
  lemma {:induction false} TwoMarks(a: char, b: char, x: string, w: string, prevWord: bool)
    requires w != [] && AllAlpha(w)
    requires !IsAlpha(a) && !IsAlpha(b) && !IsWordChar(b)
    ensures ReSub([a, b] + x, w, prevWord) == [a, b] + ReSub(x, w, false)
  {
    assert [a, b] + x == [a] + ([b] + x);
    NonAlphaStep(a, [b] + x, w, prevWord);
    NonAlphaStep(b, x, w, IsWordChar(a));
    assert [a] + ([b] + ReSub(x, w, false)) == [a, b] + ReSub(x, w, false);
  }

  /** Substituting a word other than `n` passes over the tag name `n` and the `>` after it. */
  lemma {:induction false} NamePass(n: string, x: string, w: string)
    requires w != [] && AllAlpha(w)
    requires n != [] && AllAlpha(n) && n != w
    ensures ReSub(n + (">" + x), w, false) == n + (">" + ReSub(x, w, false))
  {
    MarkupIsNotWord();
    assert (">" + x)[0] == '>';
    RunStep(n, ">" + x, w, false);
    NonAlphaStep('>', x, w, true);
  }

  /** Substituting a word other than `n` passes over an opening tag `<n>`. */
  lemma {:induction false} OpenPass(n: string, x: string, w: string, prevWord: bool)
    requires w != [] && AllAlpha(w)
    requires n != [] && AllAlpha(n) && n != w
    ensures ReSub("<" + (n + (">" + x)), w, prevWord) == "<" + (n + (">" + ReSub(x, w, false)))
  {
    MarkupIsNotWord();
    NonAlphaStep('<', n + (">" + x), w, prevWord);
    NamePass(n, x, w);
  }

  /** Substituting a word other than `n` passes over a closing tag `</n>`. */
  lemma {:induction false} ClosePass(n: string, x: string, w: string)
    requires w != [] && AllAlpha(w)
    requires n != [] && AllAlpha(n) && n != w
    ensures ReSub("</" + (n + (">" + x)), w, true) == "</" + (n + (">" + ReSub(x, w, false)))
  {
    MarkupIsNotWord();
    TwoMarks('<', '/', n + (">" + x), w, true);
    NamePass(n, x, w);
  }

  /**
    One substitution passes over an already wrapped word `p` unchanged, as long
    as it substitutes neither `p` itself nor the tag name.
  */
  lemma {:induction false} TagStep(p: string, r: string, w: string, prevWord: bool)
    requires w != [] && AllAlpha(w)
    requires p != [] && AllAlpha(p)
    requires p != w && w != TagName
    ensures ReSub(Tag(p) + r, w, prevWord) == Tag(p) + ReSub(r, w, false)
  {
    var n := TagName;
    TagNameIsAlpha();
    var close := "</" + (n + (">" + r));
    var x := p + close;
    AroundAppend(n, p, r);
    OpenPass(n, x, w, prevWord);
    assert close[0] == '<';
    RunStep(p, close, w, false);
    ClosePass(n, r, w);
    AroundAppend(n, p, ReSub(r, w, false));
  }

  /** `<n>b</n>` followed by `r`, right-nested. */
  lemma {:induction false} AroundAppend(n: string, b: string, r: string)
    ensures Around(n, b) + r == "<" + (n + (">" + (b + ("</" + (n + (">" + r))))))
  {
    var t1 := n + ">";
    assert t1 + r == n + (">" + r);
    var t2 := "</" + t1;
    assert t2 + r == "</" + (t1 + r);
    var t3 := b + t2;
    assert t3 + r == b + (t2 + r);
    var t4 := ">" + t3;
    assert t4 + r == ">" + (t3 + r);
    var t5 := n + t4;
    assert t5 + r == n + (t4 + r);
    assert ("<" + t5) + r == "<" + (t5 + r);
  }

  // ---------------------------------------------------------------------
  // Partly wrapped text

  /** Keeps a wrapped word wrapped if it is in `chosen`, and unwraps it otherwise. */
  function Pick(x: Piece, chosen: set<string>): Piece {
    if x.Strong? && x.word !in chosen then Plain(x.word) else x
  }

  /** Keeps the wrapping of the words in `chosen` and unwraps every other word. */
  function Select(ps: seq<Piece>, chosen: set<string>): (qs: seq<Piece>)
    ensures |qs| == |ps|
    ensures forall i :: 0 <= i < |ps| ==> qs[i] == Pick(ps[i], chosen)
  {
    seq(|ps|, i requires 0 <= i < |ps| => Pick(ps[i], chosen))
  }

  lemma {:induction false} SelectNone(ps: seq<Piece>)
    ensures Render(Select(ps, {})) == Flatten(ps)
    decreases |ps|
  {
    if ps != [] {
      assert Select(ps, {})[1..] == Select(ps[1..], {});
      SelectNone(ps[1..]);
    }
  }

  lemma {:induction false} StrongWordsListed(ps: seq<Piece>, i: int)
    requires 0 <= i < |ps| && ps[i].Strong?
    ensures ps[i].word in StrongWords(ps)
    decreases |ps|
  {
    if i > 0 {
      StrongWordsListed(ps[1..], i - 1);
    }
  }

  lemma {:induction false} SelectAll(ps: seq<Piece>, chosen: set<string>)
    requires forall w :: w in StrongWords(ps) ==> w in chosen
    ensures Select(ps, chosen) == ps
  {
    forall i | 0 <= i < |ps| && ps[i].Strong?
      ensures ps[i].word in chosen
    {
      StrongWordsListed(ps, i);
    }
  }

  lemma {:induction false} SelectCons(ps: seq<Piece>, chosen: set<string>)
    requires ps != []
    ensures Render(Select(ps, chosen)) == Markup(Select(ps, chosen)[0]) + Render(Select(ps[1..], chosen))
  {
    assert Select(ps, chosen)[1..] == Select(ps[1..], chosen);
  }

  /** The partly wrapped text after a run starts with the character that ended the run. */
  lemma {:induction false} SelectedStart(rest: string, chosen: set<string>, r: string)
    requires rest == [] || !IsAlpha(rest[0])
    requires r == Render(Select(Scan(rest, true), chosen))
    ensures r == [] <==> rest == []
    ensures r != [] ==> r[0] == rest[0]
  {
    if rest != [] {
      var ps := Scan(rest, true);
      assert ps[0] == Plain([rest[0]]);
      SelectCons(ps, chosen);
    }
  }

  /**
    Substituting the new long token `w` into the text `s` in which exactly the
    words of `chosen` are wrapped gives the text in which the words of `chosen`
    and `w` are wrapped (which holds unless `w` is `strong` and some word is
    already wrapped).
  */
  predicate SubstitutesOne(s: string, prevWord: bool, f: bool, chosen: set<string>, w: string) {
    && w != [] && AllAlpha(w)
    && ReSub(Render(Select(Scan(s, prevWord), chosen)), w, f) == Render(Select(Scan(s, prevWord), chosen + {w}))
  }

  /**
    Substituting a new long token `w` into the text in which exactly the words
    of `chosen` are wrapped gives the text in which the words of `chosen` and
    `w` are wrapped, unless `w` is `strong` and some word is already wrapped:
    then the tag names of the existing markup match as well.
  */
  lemma {:induction false} SubstituteOne(s: string, prevWord: bool, f: bool, chosen: set<string>, w: string)
    requires w != [] && AllAlpha(w) && |w| > 4 && w !in chosen
    requires w == TagName ==> chosen == {}
    requires s == [] || !IsAlpha(s[0]) || f == prevWord
    ensures ReSub(Render(Select(Scan(s, prevWord), chosen)), w, f)
         == Render(Select(Scan(s, prevWord), chosen + {w}))
  {
    SubstitutesAll(s, prevWord, f, chosen, w);
  }

  lemma {:induction false} SubstitutesAll(s: string, prevWord: bool, f: bool, chosen: set<string>, w: string)
    requires w != [] && AllAlpha(w) && |w| > 4 && w !in chosen
    requires w == TagName ==> chosen == {}
    requires s == [] || !IsAlpha(s[0]) || f == prevWord
    ensures SubstitutesOne(s, prevWord, f, chosen, w)
    decreases |s|, 1
  {
    if s == [] {
      assert Scan(s, prevWord) == [];
    } else if !IsAlpha(s[0]) {
      SubstitutesChar(s, prevWord, f, chosen, w);
    } else {
      SubstitutesRun(s, prevWord, chosen, w, AlphaLen(s));
    }
  }

  lemma {:induction false} SubstitutesChar(s: string, prevWord: bool, f: bool, chosen: set<string>, w: string)
    requires w != [] && AllAlpha(w) && |w| > 4 && w !in chosen
    requires w == TagName ==> chosen == {}
    requires s != [] && !IsAlpha(s[0])
    ensures SubstitutesOne(s, prevWord, f, chosen, w)
    decreases |s|, 0
  {
    SubstitutesAll(s[1..], IsWordChar(s[0]), IsWordChar(s[0]), chosen, w);
    SubstituteAfterChar(s, prevWord, f, chosen, w);
  }

  lemma {:induction false} SubstitutesRun(s: string, prevWord: bool, chosen: set<string>, w: string, k: nat)
    requires w != [] && AllAlpha(w) && |w| > 4 && w !in chosen
    requires w == TagName ==> chosen == {}
    requires s != [] && IsAlpha(s[0]) && k == AlphaLen(s)
    ensures SubstitutesOne(s, prevWord, prevWord, chosen, w)
    decreases |s|, 0
  {
    SubstitutesAll(s[k..], true, true, chosen, w);
    SubstitutesAll(s[k..], true, false, chosen, w);
    SubstituteAfterRun(s, prevWord, chosen, w, k);
  }

  lemma {:induction false} SubstituteAfterChar(s: string, prevWord: bool, f: bool, chosen: set<string>, w: string)
    requires w != [] && AllAlpha(w)
    requires s != [] && !IsAlpha(s[0])
    requires SubstitutesOne(s[1..], IsWordChar(s[0]), IsWordChar(s[0]), chosen, w)
    ensures SubstitutesOne(s, prevWord, f, chosen, w)
  {
    var ps := Scan(s, prevWord);
    assert ps[0] == Plain([s[0]]);
    assert ps[1..] == Scan(s[1..], IsWordChar(s[0]));
    SelectCons(ps, chosen);
    SelectCons(ps, chosen + {w});
    NonAlphaStep(s[0], Render(Select(ps[1..], chosen)), w, f);
  }

  lemma {:induction false} SubstituteAfterRun(s: string, prevWord: bool, chosen: set<string>, w: string, k: nat)
    requires w != [] && AllAlpha(w) && |w| > 4 && w !in chosen
    requires w == TagName ==> chosen == {}
    requires s != [] && IsAlpha(s[0]) && k == AlphaLen(s)
    requires SubstitutesOne(s[k..], true, true, chosen, w)
    requires SubstitutesOne(s[k..], true, false, chosen, w)
    ensures SubstitutesOne(s, prevWord, prevWord, chosen, w)
  {
    var p, rest := s[..k], s[k..];
    var e := Eligible(p, prevWord, rest);
    var x := if e then Strong(p) else Plain(p);
    var tail := Scan(rest, true);
    ScanRun(s, prevWord, k);
    assert Scan(s, prevWord) == [x] + tail;
    PickCons(x, tail, chosen);
    PickCons(x, tail, chosen + {w});
    var r := Render(Select(tail, chosen));
    SelectedStart(rest, chosen, r);
    PieceStep(x, p, r, Render(Select(tail, chosen + {w})), w, prevWord, chosen, e);
  }

  lemma {:induction false} PickCons(x: Piece, tail: seq<Piece>, chosen: set<string>)
    ensures Render(Select([x] + tail, chosen)) == Markup(Pick(x, chosen)) + Render(Select(tail, chosen))
  {
    SelectCons([x] + tail, chosen);
    assert ([x] + tail)[1..] == tail;
  }

  /** One substitution over the piece made of the letter run `p`, followed by the text `r`. */
  lemma {:induction false} PieceStep(x: Piece, p: string, r: string, r': string, w: string, prevWord: bool, chosen: set<string>, e: bool)
    requires w != [] && AllAlpha(w) && |w| > 4 && w !in chosen
    requires w == TagName ==> chosen == {}
    requires p != [] && AllAlpha(p)
    requires x == if e then Strong(p) else Plain(p)
    requires r == [] || !IsAlpha(r[0])
    requires e <==> RunHit(p, r, p, prevWord) && |p| > 4
    requires ReSub(r, w, true) == r' && ReSub(r, w, false) == r'
    ensures ReSub(Markup(Pick(x, chosen)) + r, w, prevWord) == Markup(Pick(x, chosen + {w})) + r'
  {
    if e && p in chosen {
      TagStep(p, r, w, prevWord);
    } else {
      BareRunStep(p, r, r', w, prevWord, e);
    }
  }

  /** A letter run that is not wrapped yet gets wrapped exactly when it is the substituted, eligible word. */
  lemma {:induction false} BareRunStep(p: string, r: string, r': string, w: string, prevWord: bool, eligible: bool)
    requires w != [] && AllAlpha(w) && |w| > 4
    requires p != [] && AllAlpha(p)
    requires r == [] || !IsAlpha(r[0])
    requires eligible <==> RunHit(p, r, p, prevWord) && |p| > 4
    requires ReSub(r, w, true) == r'
    ensures ReSub(p + r, w, prevWord) == (if eligible && p == w then Tag(w) else p) + r'
  {
    RunStep(p, r, w, prevWord);
  }

  // ---------------------------------------------------------------------
  // The whole loop

  /** What is left to iterate does not repeat, and is disjoint from what was done. */
  predicate Pending(rest: seq<string>, chosen: set<string>) {
    && (forall i, j :: 0 <= i < j < |rest| ==> rest[i] != rest[j])
    && (forall i :: 0 <= i < |rest| ==> rest[i] !in chosen)
  }

  /** The loop's invariant: the words done so far are wrapped, `strong` comes before any wrapping. */
  predicate LoopInvariant(t: string, rest: seq<string>, chosen: set<string>) {
    && Words(rest)
    && Pending(rest, chosen)
    && StrongFirst(rest)
    && (TagName in rest ==> chosen == {})
    && (forall u :: u in chosen ==> |u| > 4)
    && (forall w :: w in StrongWords(Scan(t, false)) ==> w in chosen || w in rest)
  }

  /** One round of the loop keeps its invariant. */
  lemma {:induction false} LoopKeeps(t: string, rest: seq<string>, chosen: set<string>, next: set<string>)
    requires rest != [] && LoopInvariant(t, rest, chosen)
    requires next == if |rest[0]| > 4 then chosen + {rest[0]} else chosen
    ensures LoopInvariant(t, rest[1..], next)
  {
    ReinforceWrapsOnlyLongWords(t, false);
    if TagName in rest[1..] {
      var j :| 0 <= j < |rest[1..]| && rest[1..][j] == TagName;
      assert rest[j + 1] == TagName;
    }
    assert Pending(rest[1..], next) by {
      forall i | 0 <= i < |rest[1..]|
        ensures rest[1..][i] !in next
      {
        assert rest[1..][i] == rest[i + 1] != rest[0];
      }
    }
  }

  /** One round of the loop wraps the token it substitutes, if it is long enough. */
  lemma {:induction false} LoopAdvances(t: string, rest: seq<string>, chosen: set<string>, next: set<string>)
    requires rest != [] && LoopInvariant(t, rest, chosen)
    requires next == if |rest[0]| > 4 then chosen + {rest[0]} else chosen
    ensures SubstituteAll(Render(Select(Scan(t, false), chosen)), rest)
         == SubstituteAll(Render(Select(Scan(t, false), next)), rest[1..])
  {
    var w := rest[0];
    if |w| > 4 {
      SubstituteOne(t, false, false, chosen, w);
    }
  }

  lemma {:induction false} SubstituteRest(t: string, rest: seq<string>, chosen: set<string>)
    requires LoopInvariant(t, rest, chosen)
    ensures SubstituteAll(Render(Select(Scan(t, false), chosen)), rest) == Render(Scan(t, false))
    decreases |rest|
  {
    if rest == [] {
      SelectAll(Scan(t, false), chosen);
    } else {
      var next := if |rest[0]| > 4 then chosen + {rest[0]} else chosen;
      LoopKeeps(t, rest, chosen, next);
      LoopAdvances(t, rest, chosen, next);
      SubstituteRest(t, rest[1..], next);
    }
  }

  /**
    For every iteration order of the token set in which `strong` (if present)
    comes before every longer token, the helper's token-by-token substitution
    produces the single-pass result.
  */
  lemma {:induction false} AsWrittenAgrees(text: string, order: seq<string>)
    requires IsEnumeration(order, Tokens(text))
    requires StrongFirst(order)
    ensures ReinforceAsWritten(text, order) == Reinforce(text)
  {
    var ps := Scan(text, false);
    assert LoopInvariant(text, order, {}) by {
      TokensAreWords(text);
      TokensAreAlphaRuns(text);
      StrongWordsAreRuns(text, false);
      assert forall i :: 0 <= i < |order| ==> order[i] in Tokens(text);
      assert forall w :: w in StrongWords(ps) ==> w in order;
    }
    SelectNone(ps);
    ScanFlattens(text, false);
    assert Render(Select(ps, {})) == text;
    SubstituteRest(text, order, {});
  }

  /** Without a token `strong`, every iteration order gives the single-pass result. */
  lemma {:induction false} AnyOrderAgrees(text: string, order: seq<string>)
    requires IsEnumeration(order, Tokens(text))
    requires TagName !in Tokens(text)
    ensures ReinforceAsWritten(text, order) == Reinforce(text)
  {
    AsWrittenAgrees(text, order);
  }
}
