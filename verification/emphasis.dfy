/**
  `reinforce_text`: every whole-word occurrence of a letter run longer than four
  characters is wrapped in `<strong>…</strong>`, then whitespace is collapsed and
  one space appended.

  This module is the single-pass form: the text is cut into pieces (maximal
  letter runs and single other characters) and each letter run is wrapped when
  it is long enough and sits between word boundaries. The sequential,
  token-by-token substitution the helper actually performs is modelled in
  module `Substitution`, which proves the two agree.
*/
module Emphasis {
  import opened Chars
  import opened Whitespace

  /** Length of the leading run of letters of `s`. */
  function AlphaLen(s: string): (k: nat)
    ensures k <= |s|
    ensures forall i :: 0 <= i < k ==> IsAlpha(s[i])
    ensures k == |s| || !IsAlpha(s[k])
  {
    if s == [] || !IsAlpha(s[0]) then 0 else 1 + AlphaLen(s[1..])
  }

  /** A piece of rewritten text: kept as it is, or wrapped in `<strong>`. */
  datatype Piece = Plain(text: string) | Strong(word: string)

  /** The name of the tag the helper inserts. */
  const TagName := "strong"

  /** `<n>b</n>`, written right-nested so that it composes without re-association. */
  function Around(n: string, b: string): string {
    "<" + (n + (">" + (b + ("</" + (n + ">")))))
  }

  /** The markup wrapped around a word: `<strong>w</strong>`. */
  function Tag(w: string): string {
    Around(TagName, w)
  }

  lemma {:induction false} TagNameIsAlpha()
    ensures TagName != [] && AllAlpha(TagName)
  {
    var s := TagName;
    assert s[0] == 's' && s[1] == 't' && s[2] == 'r' && s[3] == 'o' && s[4] == 'n' && s[5] == 'g';
  }

  /** What a piece looks like in the rewritten text. */
  function Markup(p: Piece): string {
    match p
    case Plain(s) => s
    case Strong(w) => Tag(w)
  }

  /** What a piece looks like with its markup deleted. */
  function Content(p: Piece): string {
    match p
    case Plain(s) => s
    case Strong(w) => w
  }

  function Render(ps: seq<Piece>): string {
    if ps == [] then [] else Markup(ps[0]) + Render(ps[1..])
  }

  function Flatten(ps: seq<Piece>): string {
    if ps == [] then [] else Content(ps[0]) + Flatten(ps[1..])
  }

  /** The wrapped words, in order. */
  function StrongWords(ps: seq<Piece>): seq<string> {
    if ps == [] then []
    else (if ps[0].Strong? then [ps[0].word] else []) + StrongWords(ps[1..])
  }

  /** Every wrapped word is a run of more than four letters. */
  predicate LongAlphaStrong(ps: seq<Piece>) {
    forall i :: 0 <= i < |ps| && ps[i].Strong? ==> |ps[i].word| > 4 && AllAlpha(ps[i].word)
  }

  /**
    Whether the letter run `w`, preceded by a character whose word-ness is
    `prevWord` and followed by `rest`, is a whole word of more than four letters:
    the regular expression `\bw\b` matches there exactly when neither neighbour
    is a word character.
  */
  predicate Eligible(w: string, prevWord: bool, rest: string) {
    |w| > 4 && !prevWord && (rest == [] || !IsWordChar(rest[0]))
  }

  /**
    Cuts `s` into pieces and wraps the eligible letter runs. `prevWord` says
    whether the character just before `s` is a word character.
  */
  function Scan(s: string, prevWord: bool): (ps: seq<Piece>)
    decreases |s|
  {
    if s == [] then []
    else if !IsAlpha(s[0]) then
      [Plain([s[0]])] + Scan(s[1..], IsWordChar(s[0]))
    else
      var k := AlphaLen(s);
      var w := s[..k];
      [if Eligible(w, prevWord, s[k..]) then Strong(w) else Plain(w)] + Scan(s[k..], true)
  }

  /** Deleting the markup gives the text back. */
  lemma {:induction false} ScanFlattens(s: string, prevWord: bool)
    ensures Flatten(Scan(s, prevWord)) == s
    decreases |s|
  {
    var ps := Scan(s, prevWord);
    if s == [] {
    } else if !IsAlpha(s[0]) {
      ScanFlattens(s[1..], IsWordChar(s[0]));
      assert ps[1..] == Scan(s[1..], IsWordChar(s[0]));
      assert s == [s[0]] + s[1..];
    } else {
      var k := AlphaLen(s);
      ScanFlattens(s[k..], true);
      assert ps[1..] == Scan(s[k..], true);
      assert s == s[..k] + s[k..];
    }
  }

  /** Only letter runs of more than four letters are wrapped. */
  lemma {:induction false} ScanWrapsLong(s: string, prevWord: bool)
    ensures LongAlphaStrong(Scan(s, prevWord))
    decreases |s|
  {
    var ps := Scan(s, prevWord);
    if s == [] {
    } else if !IsAlpha(s[0]) {
      ScanWrapsLong(s[1..], IsWordChar(s[0]));
      assert ps[1..] == Scan(s[1..], IsWordChar(s[0]));
    } else {
      var k := AlphaLen(s);
      ScanWrapsLong(s[k..], true);
      assert ps[1..] == Scan(s[k..], true);
    }
  }

  /** `reinforce_text(text)`, with the wrapping done in one pass. */
  function Reinforce(text: string): string {
    Collapse(Render(Scan(text, false)))
  }

  // ---------------------------------------------------------------------
  // Which spans get wrapped

  /**
    The span `[i, j)` of `t` is a whole word of more than four letters: all of
    it letters, and no word character on either side (`prevWord` stands for the
    character before `t`).
  */
  predicate EligibleSpan(t: string, prevWord: bool, i: int, j: int) {
    && 0 <= i < j <= |t|
    && j - i > 4
    && (forall k :: i <= k < j ==> IsAlpha(t[k]))
    && (if i == 0 then !prevWord else !IsWordChar(t[i - 1]))
    && (j == |t| || !IsWordChar(t[j]))
  }

  /** The pieces wrap the span `[i, j)` of the text they flatten to. */
  predicate WrapsSpan(ps: seq<Piece>, i: int, j: int)
    decreases |ps|
  {
    && ps != []
    && var n := |Content(ps[0])|;
       || (ps[0].Strong? && i == 0 && j == n)
       || WrapsSpan(ps[1..], i - n, j - n)
  }

  lemma {:induction false} WrapsSpanNegative(ps: seq<Piece>, i: int, j: int)
    requires i < 0
    ensures !WrapsSpan(ps, i, j)
    decreases |ps|
  {
    if ps != [] {
      WrapsSpanNegative(ps[1..], i - |Content(ps[0])|, j - |Content(ps[0])|);
    }
  }

  lemma {:induction false} WrapsSpanCons(x: Piece, rest: seq<Piece>, i: int, j: int, n: int)
    requires n == |Content(x)|
    ensures WrapsSpan([x] + rest, i, j) <==> (x.Strong? && i == 0 && j == n) || WrapsSpan(rest, i - n, j - n)
  {
    assert ([x] + rest)[1..] == rest;
  }

  /** A span of `t` past a leading non-letter is a span of the rest of `t`. */
  lemma {:induction false} EligibleAfterChar(t: string, prevWord: bool, i: int, j: int)
    requires t != [] && !IsAlpha(t[0])
    ensures EligibleSpan(t, prevWord, i, j)
        <==> i >= 1 && EligibleSpan(t[1..], IsWordChar(t[0]), i - 1, j - 1)
  {
    if EligibleSpan(t, prevWord, i, j) {
      assert i != 0;
      assert EligibleSpan(t[1..], IsWordChar(t[0]), i - 1, j - 1);
    }
    if i >= 1 && EligibleSpan(t[1..], IsWordChar(t[0]), i - 1, j - 1) {
      assert forall k :: i <= k < j ==> t[k] == t[1..][k - 1];
    }
  }

  /**
    A span of `t` that starts with a run of `k` letters is either that whole
    run, or lies in the rest of `t`.
  */
  lemma {:induction false} EligibleAfterRun(t: string, prevWord: bool, i: int, j: int, k: nat)
    requires t != [] && IsAlpha(t[0]) && k == AlphaLen(t)
    ensures EligibleSpan(t, prevWord, i, j) <==>
        (i == 0 && j == k && Eligible(t[..k], prevWord, t[k..])) || (i >= k && EligibleSpan(t[k..], true, i - k, j - k))
  {
    var rest := t[k..];
    if i == 0 && 0 <= j < k {
      AlphaIsWord(t[j]);
    }
    if 0 < i <= k {
      AlphaIsWord(t[i - 1]);
    }
    if i >= k {
      assert forall m :: i <= m < j <= |t| ==> t[m] == rest[m - k];
    }
  }

  /**
    The single pass wraps exactly the whole-word occurrences of letter runs
    longer than four characters: every such span, and nothing else.
  */
  lemma {:induction false} ScanWrapsExactly(t: string, prevWord: bool, i: int, j: int)
    ensures WrapsSpan(Scan(t, prevWord), i, j) <==> EligibleSpan(t, prevWord, i, j)
  {
    ScanAgrees(t, prevWord, i, j);
  }

  /** The single pass wraps the span `[i, j)` exactly when it is eligible. */
  predicate Agrees(t: string, prevWord: bool, i: int, j: int) {
    WrapsSpan(Scan(t, prevWord), i, j) <==> EligibleSpan(t, prevWord, i, j)
  }

  lemma {:induction false} ScanAgrees(t: string, prevWord: bool, i: int, j: int)
    ensures Agrees(t, prevWord, i, j)
    decreases |t|, 1
  {
    if t == [] {
      WrapsNothing(prevWord, i, j);
    } else if !IsAlpha(t[0]) {
      AgreesChar(t, prevWord, i, j);
    } else {
      AgreesRun(t, prevWord, i, j, AlphaLen(t));
    }
  }

  lemma {:induction false} AgreesChar(t: string, prevWord: bool, i: int, j: int)
    requires t != [] && !IsAlpha(t[0])
    ensures Agrees(t, prevWord, i, j)
    decreases |t|, 0
  {
    ScanAgrees(t[1..], IsWordChar(t[0]), i - 1, j - 1);
    WrapsAfterChar(t, prevWord, i, j);
  }

  lemma {:induction false} AgreesRun(t: string, prevWord: bool, i: int, j: int, k: nat)
    requires t != [] && IsAlpha(t[0]) && k == AlphaLen(t)
    ensures Agrees(t, prevWord, i, j)
    decreases |t|, 0
  {
    ScanAgrees(t[k..], true, i - k, j - k);
    WrapsAfterRun(t, prevWord, i, j, k);
  }

  lemma {:induction false} WrapsNothing(prevWord: bool, i: int, j: int)
    ensures Agrees([], prevWord, i, j)
  {
    assert Scan([], prevWord) == [];
  }

  lemma {:induction false} WrapsAfterChar(t: string, prevWord: bool, i: int, j: int)
    requires t != [] && !IsAlpha(t[0])
    requires Agrees(t[1..], IsWordChar(t[0]), i - 1, j - 1)
    ensures Agrees(t, prevWord, i, j)
  {
    ScanChar(t, prevWord);
    EligibleAfterChar(t, prevWord, i, j);
    CombineRun(Plain([t[0]]), Scan(t[1..], IsWordChar(t[0])), 1, i, j,
      false, EligibleSpan(t[1..], IsWordChar(t[0]), i - 1, j - 1), EligibleSpan(t, prevWord, i, j));
  }

  lemma {:induction false} WrapsAfterRun(t: string, prevWord: bool, i: int, j: int, k: nat)
    requires t != [] && IsAlpha(t[0]) && k == AlphaLen(t)
    requires Agrees(t[k..], true, i - k, j - k)
    ensures Agrees(t, prevWord, i, j)
  {
    var w, rest := t[..k], t[k..];
    var x := if Eligible(w, prevWord, rest) then Strong(w) else Plain(w);
    var r := Scan(rest, true);
    var tail := EligibleSpan(rest, true, i - k, j - k);
    assert WrapsSpan(r, i - k, j - k) == tail;
    ScanRun(t, prevWord, k);
    EligibleAfterRun(t, prevWord, i, j, k);
    CombineRun(x, r, k, i, j, Eligible(w, prevWord, rest), tail, EligibleSpan(t, prevWord, i, j));
  }

  /** The propositional core of `WrapsAfterRun`, with the facts about the text given as truth values. */
  lemma {:induction false} CombineRun(x: Piece, r: seq<Piece>, k: int, i: int, j: int, head: bool, tail: bool, whole: bool)
    requires |Content(x)| == k
    requires x.Strong? == head
    requires WrapsSpan(r, i - k, j - k) == tail
    requires whole == ((i == 0 && j == k && head) || (i >= k && tail))
    ensures WrapsSpan([x] + r, i, j) == whole
  {
    WrapsAfterPiece(x, r, i, j, k);
  }

  /** The first step of `Scan` over a non-letter. */
  lemma {:induction false} ScanChar(t: string, prevWord: bool)
    requires t != [] && !IsAlpha(t[0])
    ensures Scan(t, prevWord) == [Plain([t[0]])] + Scan(t[1..], IsWordChar(t[0]))
  {
  }

  /** The first step of `Scan` over a run of letters. */
  lemma {:induction false} ScanRun(t: string, prevWord: bool, k: nat)
    requires t != [] && IsAlpha(t[0]) && k == AlphaLen(t)
    ensures Scan(t, prevWord)
      == [if Eligible(t[..k], prevWord, t[k..]) then Strong(t[..k]) else Plain(t[..k])] + Scan(t[k..], true)
  {
  }

  /** The spans wrapped by a piece followed by more pieces. */
  lemma {:induction false} WrapsAfterPiece(x: Piece, rest: seq<Piece>, i: int, j: int, n: int)
    requires n == |Content(x)|
    ensures WrapsSpan([x] + rest, i, j) <==> (x.Strong? && i == 0 && j == n) || (i >= n && WrapsSpan(rest, i - n, j - n))
  {
    WrapsSpanCons(x, rest, i, j, n);
    if i < n {
      WrapsSpanNegative(rest, i - n, j - n);
    }
  }

  /** Every wrapped word is a letter run of more than four characters: `fox`, `over` and `lazy` stay bare. */
  lemma {:induction false} ReinforceWrapsOnlyLongWords(t: string, prevWord: bool)
    ensures forall w :: w in StrongWords(Scan(t, prevWord)) ==> |w| > 4 && AllAlpha(w)
  {
    ScanWrapsLong(t, prevWord);
    StrongWordsAreLong(Scan(t, prevWord));
  }

  lemma {:induction false} StrongWordsAreLong(ps: seq<Piece>)
    requires LongAlphaStrong(ps)
    ensures forall w :: w in StrongWords(ps) ==> |w| > 4 && AllAlpha(w)
    decreases |ps|
  {
    if ps != [] {
      StrongWordsAreLong(ps[1..]);
    }
  }

  // ---------------------------------------------------------------------
  // Collapsing whitespace around the inserted markup

  /** Wrapped words are non-empty and contain no whitespace. */
  predicate SolidStrong(ps: seq<Piece>) {
    forall i :: 0 <= i < |ps| && ps[i].Strong? ==> ps[i].word != [] && NoSpace(ps[i].word)
  }

  /** The streaming whitespace collapse applied piece by piece, keeping the markup. */
  function CollapsePieces(ps: seq<Piece>, p: Phase): seq<Piece>
    decreases |ps|
  {
    if ps == [] then []
    else match ps[0]
      case Plain(s) => [Plain(Squeeze(s, p))] + CollapsePieces(ps[1..], PhaseAfter(s, p))
      case Strong(w) => [Plain(Lead(p)), Strong(w)] + CollapsePieces(ps[1..], InWord)
  }

  lemma {:induction false} AroundNoSpace(n: string, b: string)
    requires NoSpace(n) && NoSpace(b)
    ensures NoSpace(Around(n, b))
  {
    MarkupIsNotWord();
    assert NoSpace("<") && NoSpace(">") && NoSpace("</");
    NoSpaceAppend(n, ">");
    NoSpaceAppend("</", n + ">");
    NoSpaceAppend(b, "</" + (n + ">"));
    NoSpaceAppend(">", b + ("</" + (n + ">")));
    NoSpaceAppend(n, ">" + (b + ("</" + (n + ">"))));
    NoSpaceAppend("<", n + (">" + (b + ("</" + (n + ">")))));
  }

  lemma {:induction false} TagIsSolid(w: string)
    requires NoSpace(w)
    ensures Tag(w) != [] && NoSpace(Tag(w))
  {
    TagNameIsAlpha();
    AlphaNoSpace(TagName);
    AroundNoSpace(TagName, w);
  }

  /** Collapsing whitespace commutes with rendering: the markup is kept as it is. */
  lemma {:induction false} CollapseRenders(ps: seq<Piece>, p: Phase)
    requires SolidStrong(ps)
    ensures Render(CollapsePieces(ps, p)) == Squeeze(Render(ps), p)
    decreases |ps|
  {
    if ps != [] {
      var rest := ps[1..];
      var cs := CollapsePieces(ps, p);
      match ps[0]
      case Plain(s) =>
        var q := PhaseAfter(s, p);
        CollapseRenders(rest, q);
        assert cs[1..] == CollapsePieces(rest, q);
        SqueezeAppend(s, Render(rest), p);
      case Strong(w) =>
        var tail := CollapsePieces(rest, InWord);
        CollapseRenders(rest, InWord);
        assert cs[1..] == [Strong(w)] + tail;
        assert cs[1..][1..] == tail;
        assert Render(cs) == Lead(p) + (Tag(w) + Render(tail));
        TagIsSolid(w);
        SqueezeBlockThen(Tag(w), Render(rest), p);
    }
  }

  /** Collapsing whitespace commutes with deleting the markup. */
  lemma {:induction false} CollapseFlattens(ps: seq<Piece>, p: Phase)
    requires SolidStrong(ps)
    ensures Flatten(CollapsePieces(ps, p)) == Squeeze(Flatten(ps), p)
    decreases |ps|
  {
    if ps != [] {
      var rest := ps[1..];
      var cs := CollapsePieces(ps, p);
      match ps[0]
      case Plain(s) =>
        var q := PhaseAfter(s, p);
        CollapseFlattens(rest, q);
        assert cs[1..] == CollapsePieces(rest, q);
        SqueezeAppend(s, Flatten(rest), p);
      case Strong(w) =>
        var tail := CollapsePieces(rest, InWord);
        CollapseFlattens(rest, InWord);
        assert cs[1..] == [Strong(w)] + tail;
        assert cs[1..][1..] == tail;
        assert Flatten(cs) == Lead(p) + (w + Flatten(tail));
        SqueezeBlockThen(w, Flatten(rest), p);
    }
  }

  /** Collapsing whitespace keeps the wrapped words, in order. */
  lemma {:induction false} CollapseKeepsWords(ps: seq<Piece>, p: Phase)
    ensures StrongWords(CollapsePieces(ps, p)) == StrongWords(ps)
    decreases |ps|
  {
    if ps != [] {
      var rest := ps[1..];
      var cs := CollapsePieces(ps, p);
      match ps[0]
      case Plain(s) =>
        var q := PhaseAfter(s, p);
        CollapseKeepsWords(rest, q);
        assert cs[1..] == CollapsePieces(rest, q);
      case Strong(w) =>
        var tail := CollapsePieces(rest, InWord);
        CollapseKeepsWords(rest, InWord);
        assert cs[1..] == [Strong(w)] + tail;
        assert cs[1..][1..] == tail;
    }
  }

  lemma {:induction false} SqueezeBlockThen(b: string, rest: string, p: Phase)
    requires b != [] && NoSpace(b)
    ensures Squeeze(b + rest, p) == Lead(p) + (b + Squeeze(rest, InWord))
  {
    SqueezeAppend(b, rest, p);
    SqueezeBlock(b, p);
  }

  lemma {:induction false} RenderOfAppend(a: seq<Piece>, b: seq<Piece>)
    ensures Render(a + b) == Render(a) + Render(b)
    decreases |a|
  {
    if a == [] {
      assert a + b == b;
    } else {
      assert (a + b)[0] == a[0] && (a + b)[1..] == a[1..] + b;
      RenderOfAppend(a[1..], b);
      var h, t := Markup(a[0]), Render(a[1..]);
      assert h + (t + Render(b)) == (h + t) + Render(b);
    }
  }

  lemma {:induction false} FlattenOfAppend(a: seq<Piece>, b: seq<Piece>)
    ensures Flatten(a + b) == Flatten(a) + Flatten(b)
    decreases |a|
  {
    if a == [] {
      assert a + b == b;
    } else {
      assert (a + b)[0] == a[0] && (a + b)[1..] == a[1..] + b;
      FlattenOfAppend(a[1..], b);
      var h, t := Content(a[0]), Flatten(a[1..]);
      assert h + (t + Flatten(b)) == (h + t) + Flatten(b);
    }
  }

  lemma {:induction false} StrongWordsOfAppend(a: seq<Piece>, b: seq<Piece>)
    ensures StrongWords(a + b) == StrongWords(a) + StrongWords(b)
    decreases |a|
  {
    if a == [] {
      assert a + b == b;
    } else {
      assert (a + b)[0] == a[0] && (a + b)[1..] == a[1..] + b;
      StrongWordsOfAppend(a[1..], b);
      var h := if a[0].Strong? then [a[0].word] else [];
      var t := StrongWords(a[1..]);
      assert h + (t + StrongWords(b)) == (h + t) + StrongWords(b);
    }
  }

  lemma {:induction false} LongAlphaIsSolid(ps: seq<Piece>)
    requires LongAlphaStrong(ps)
    ensures SolidStrong(ps)
  {
    forall i | 0 <= i < |ps| && ps[i].Strong?
      ensures NoSpace(ps[i].word)
    {
      AlphaNoSpace(ps[i].word);
    }
  }

  /**
    The rewritten text as pieces: the output of `reinforce_text` with the
    inserted markup made explicit.
  */
  function EmphasizedPieces(text: string): seq<Piece> {
    CollapsePieces(Scan(text, false), Start) + [Plain(" ")]
  }

  /** The pieces render to the output of `reinforce_text`. */
  lemma {:induction false} EmphasizedRenders(text: string)
    ensures Render(EmphasizedPieces(text)) == Reinforce(text)
  {
    var ps := Scan(text, false);
    ScanWrapsLong(text, false);
    LongAlphaIsSolid(ps);
    CollapseRenders(ps, Start);
    RenderOfAppend(CollapsePieces(ps, Start), [Plain(" ")]);
    SqueezeIsNormalize(Render(ps));
    assert Render([Plain(" ")]) == " ";
  }

  /**
    Deleting the inserted `<strong>`/`</strong>` from the output of
    `reinforce_text` gives back the whitespace-collapsed input plus one space:
    no word is lost or changed.
  */
  lemma {:induction false} ReinforceUnwraps(text: string)
    ensures Flatten(EmphasizedPieces(text)) == Collapse(text)
  {
    var ps := Scan(text, false);
    ScanWrapsLong(text, false);
    ScanFlattens(text, false);
    LongAlphaIsSolid(ps);
    CollapseFlattens(ps, Start);
    FlattenOfAppend(CollapsePieces(ps, Start), [Plain(" ")]);
    SqueezeIsNormalize(text);
    assert Flatten([Plain(" ")]) == " ";
  }

  /** The words wrapped in the output are exactly those the single pass chose, in order. */
  lemma {:induction false} EmphasizedKeepsWords(text: string)
    ensures StrongWords(EmphasizedPieces(text)) == StrongWords(Scan(text, false))
  {
    var ps := Scan(text, false);
    CollapseKeepsWords(ps, Start);
    StrongWordsOfAppend(CollapsePieces(ps, Start), [Plain(" ")]);
    assert StrongWords([Plain(" ")]) == [];
  }

  /**
    The output of `reinforce_text` ends with exactly one space, and before it
    the text is collapsed: no whitespace other than single plain spaces between
    non-space characters.
  */
  lemma {:induction false} ReinforceShape(text: string)
    ensures SpaceTerminated(Reinforce(text))
  {
    CollapseShape(Render(Scan(text, false)));
  }
}
