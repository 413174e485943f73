/**
  Whitespace collapsing as the page helpers do it: `' '.join(s.split())`
  (the last step of `sterilize_page`) and `' '.join(s.split()) + ' '` (the last
  step of `reinforce_text`).

  `Split`/`Join` are the reference definitions, written the way Python states
  them. `Squeeze` is a left-to-right streaming form of the same collapse, which
  composes over concatenation and is what the emphasis proofs use; the two are
  proved equal.
*/
module Whitespace {
  import opened Chars

  /** Length of the leading run of non-whitespace characters of `s`. */
  function WordLen(s: string): (k: nat)
    ensures k <= |s|
    ensures forall i :: 0 <= i < k ==> !IsSpace(s[i])
    ensures k == |s| || IsSpace(s[k])
  {
    if s == [] || IsSpace(s[0]) then 0 else 1 + WordLen(s[1..])
  }

  /** Every word is non-empty and free of whitespace. */
  predicate ProperWords(ws: seq<string>) {
    forall i :: 0 <= i < |ws| ==> ws[i] != [] && NoSpace(ws[i])
  }

  /** Python's `str.split()` with no separator: the maximal non-whitespace runs, in order. */
  function Split(s: string): (ws: seq<string>)
    ensures ProperWords(ws)
    decreases |s|
  {
    if s == [] then []
    else if IsSpace(s[0]) then Split(s[1..])
    else
      var k := WordLen(s);
      [s[..k]] + Split(s[k..])
  }

  /** Python's `' '.join(ws)`. */
  function Join(ws: seq<string>): string {
    if ws == [] then []
    else if |ws| == 1 then ws[0]
    else ws[0] + " " + Join(ws[1..])
  }

  /** `' '.join(s.split())` */
  function Normalize(s: string): string {
    Join(Split(s))
  }

  /** `' '.join(s.split()) + ' '` */
  function Collapse(s: string): string {
    Normalize(s) + " "
  }

  /**
    A collapsed string: its only whitespace character is the plain space, it
    never has two whitespace characters in a row, and it neither starts nor
    ends with whitespace.
  */
  predicate Tidy(s: string) {
    && (forall i :: 0 <= i < |s| && IsSpace(s[i]) ==> s[i] == ' ')
    && (forall i :: 0 <= i < |s| - 1 ==> !(IsSpace(s[i]) && IsSpace(s[i + 1])))
    && (|s| > 0 ==> !IsSpace(s[0]) && !IsSpace(s[|s| - 1]))
  }

  /** The shape `reinforce_text` promises: a tidy body followed by exactly one space. */
  predicate SpaceTerminated(s: string) {
    |s| > 0 && s[|s| - 1] == ' ' && Tidy(s[..|s| - 1])
  }

  lemma {:induction false} JoinTidy(ws: seq<string>)
    requires ProperWords(ws)
    ensures Tidy(Join(ws))
    ensures Join(ws) == [] <==> ws == []
    decreases |ws|
  {
    if |ws| > 1 {
      var rest := Join(ws[1..]);
      JoinTidy(ws[1..]);
      var s := ws[0] + " " + rest;
      assert s == Join(ws);
      var n := |ws[0]|;
      forall i | 0 <= i < |s| && IsSpace(s[i])
        ensures s[i] == ' '
      {
        if i > n {
          assert s[i] == rest[i - n - 1];
        }
      }
      forall i | 0 <= i < |s| - 1
        ensures !(IsSpace(s[i]) && IsSpace(s[i + 1]))
      {
        if i > n {
          assert s[i] == rest[i - n - 1] && s[i + 1] == rest[i - n];
        } else if i == n {
          assert s[i + 1] == rest[0];
        } else if i == n - 1 {
          assert s[i] == ws[0][n - 1];
        } else {
          assert s[i] == ws[0][i];
        }
      }
      assert s[0] == ws[0][0];
      assert s[|s| - 1] == rest[|rest| - 1];
    }
  }

  /** `' '.join(s.split())` is tidy: no whitespace at either end, none doubled, only plain spaces. */
  lemma {:induction false} NormalizeTidy(s: string)
    ensures Tidy(Normalize(s))
  {
    JoinTidy(Split(s));
  }

  /** `' '.join(s.split()) + ' '` ends with exactly one space after a tidy body. */
  lemma {:induction false} CollapseShape(s: string)
    ensures SpaceTerminated(Collapse(s))
    ensures Collapse(s) == " " || !IsSpace(Collapse(s)[0])
  {
    NormalizeTidy(s);
    assert Collapse(s)[..|Collapse(s)| - 1] == Normalize(s);
  }

  /** Splitting a joined list of proper words gives the words back: collapsing loses no word. */
  lemma {:induction false} SplitJoin(ws: seq<string>)
    requires ProperWords(ws)
    ensures Split(Join(ws)) == ws
    decreases |ws|, 1
  {
    if |ws| == 1 {
      SplitOneWord(ws[0]);
    } else if |ws| > 1 {
      SplitJoinMore(ws);
    }
  }

  lemma {:induction false} SplitOneWord(w: string)
    requires w != [] && NoSpace(w)
    ensures Split(Join([w])) == [w]
  {
    WordLenOfWord(w, []);
    assert w + [] == w;
    assert w[|w|..] == [];
  }

  lemma {:induction false} SplitJoinMore(ws: seq<string>)
    requires ProperWords(ws) && |ws| > 1
    ensures Split(Join(ws)) == ws
    decreases |ws|, 0
  {
    var w, rest := ws[0], Join(ws[1..]);
    var gap := " " + rest;
    var s := w + gap;
    assert Join(ws) == s;
    WordLenOfWord(w, gap);
    assert s[..|w|] == w;
    assert s[|w|..] == gap;
    SplitJoin(ws[1..]);
    assert gap[1..] == rest;
    assert [w] + ws[1..] == ws;
  }

  lemma {:induction false} WordLenOfWord(w: string, t: string)
    requires w != [] && NoSpace(w)
    requires t == [] || IsSpace(t[0])
    ensures WordLen(w + t) == |w|
    decreases |w|
  {
    if |w| > 1 {
      assert (w + t)[1..] == w[1..] + t;
      WordLenOfWord(w[1..], t);
    } else {
      assert (w + t)[1..] == t;
    }
  }

  /** Collapsing twice is collapsing once. */
  lemma {:induction false} NormalizeIdempotent(s: string)
    ensures Normalize(Normalize(s)) == Normalize(s)
  {
    SplitJoin(Split(s));
  }

  // ---------------------------------------------------------------------
  // Streaming form

  /**
    Where the streaming collapse stands: nothing emitted yet, inside a word,
    or in a whitespace gap after at least one word.
  */
  datatype Phase = Start | InWord | Gap

  function Lead(p: Phase): string {
    if p == Gap then " " else ""
  }

  function Squeeze(s: string, p: Phase): string
    decreases |s|
  {
    if s == [] then []
    else if IsSpace(s[0]) then Squeeze(s[1..], if p == Start then Start else Gap)
    else Lead(p) + [s[0]] + Squeeze(s[1..], InWord)
  }

  function PhaseAfter(s: string, p: Phase): Phase
    decreases |s|
  {
    if s == [] then p
    else if IsSpace(s[0]) then PhaseAfter(s[1..], if p == Start then Start else Gap)
    else PhaseAfter(s[1..], InWord)
  }

  /** The streaming collapse of a concatenation is the concatenation of the streams. */
  lemma {:induction false} SqueezeAppend(x: string, y: string, p: Phase)
    ensures Squeeze(x + y, p) == Squeeze(x, p) + Squeeze(y, PhaseAfter(x, p))
    ensures PhaseAfter(x + y, p) == PhaseAfter(y, PhaseAfter(x, p))
    decreases |x|
  {
    if x == [] {
      assert x + y == y;
    } else {
      assert (x + y)[0] == x[0];
      assert (x + y)[1..] == x[1..] + y;
      var q := if IsSpace(x[0]) then (if p == Start then Start else Gap) else InWord;
      SqueezeAppend(x[1..], y, q);
    }
  }

  /** A non-empty block without whitespace passes through unchanged, after any pending gap. */
  lemma {:induction false} SqueezeBlock(x: string, p: Phase)
    requires x != [] && NoSpace(x)
    ensures Squeeze(x, p) == Lead(p) + x
    ensures PhaseAfter(x, p) == InWord
    decreases |x|
  {
    if |x| == 1 {
      assert x[1..] == [];
      assert x == [x[0]];
    } else {
      SqueezeBlock(x[1..], InWord);
      assert x == [x[0]] + x[1..];
    }
  }

  /** The streaming collapse agrees with `' '.join(s.split())`. */
  lemma {:induction false} SqueezeIsNormalize(s: string)
    ensures Squeeze(s, Start) == Normalize(s)
    ensures Squeeze(s, Gap) == if Split(s) == [] then [] else " " + Normalize(s)
    decreases |s|, 1
  {
    if s == [] {
    } else if IsSpace(s[0]) {
      SqueezeIsNormalize(s[1..]);
    } else {
      var k := WordLen(s);
      var w, rest := s[..k], s[k..];
      assert s == w + rest;
      assert NoSpace(w);
      SqueezeAppend(w, rest, Start);
      SqueezeAppend(w, rest, Gap);
      SqueezeBlock(w, Start);
      SqueezeBlock(w, Gap);
      AfterWord(rest);
      assert Split(s) == [w] + Split(rest);
      JoinCons(w, Split(rest));
    }
  }

  /** What follows a word: either nothing, or a gap that the reference collapses to one space. */
  lemma {:induction false} AfterWord(rest: string)
    requires rest == [] || IsSpace(rest[0])
    ensures Squeeze(rest, InWord) == if Split(rest) == [] then [] else " " + Normalize(rest)
    decreases |rest|, 0
  {
    if rest != [] {
      SqueezeIsNormalize(rest[1..]);
    }
  }

  lemma {:induction false} JoinCons(w: string, ws: seq<string>)
    ensures Join([w] + ws) == if ws == [] then w else w + " " + Join(ws)
  {
    assert ([w] + ws)[1..] == ws;
  }
}
