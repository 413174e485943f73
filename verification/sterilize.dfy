/**
  The string steps of `sterilize_page`: newlines, carriage returns and tabs
  become spaces, the page goes through the HTML cleaner, and the cleaner's
  output is whitespace-collapsed with `' '.join(s.split())`.

  The cleaner is a library call whose behaviour is not part of this model; it
  is a parameter here, and nothing is assumed about it.
*/
module Sterilize {
  import opened Chars
  import opened Whitespace

  /** Python's `s.replace(c, d)` for single characters. */
  function Replace(s: string, c: char, d: char): (t: string)
    ensures |t| == |s|
    ensures forall i :: 0 <= i < |s| ==> t[i] == if s[i] == c then d else s[i]
  {
    seq(|s|, i requires 0 <= i < |s| => if s[i] == c then d else s[i])
  }

  predicate IsControl(c: char) {
    c == '\n' || c == '\r' || c == '\t'
  }

  /**
    The loop over `['\n', '\r', '\t']`, one `replace` after another: afterwards
    no newline, carriage return or tab is left; each of them became a space and
    every other character is where it was.
  */
  function ReplaceControls(page: string): (r: string)
    ensures |r| == |page|
    ensures forall i :: 0 <= i < |page| ==> r[i] == if IsControl(page[i]) then ' ' else page[i]
    ensures forall i :: 0 <= i < |page| ==> !IsControl(r[i])
  {
    Replace(Replace(Replace(page, '\n', ' '), '\r', ' '), '\t', ' ')
  }

  /**
    The three characters replaced are whitespace already, so the replacement
    changes no word of the page: the collapse would give the same words
    without it.
  */
  lemma {:induction false} ReplaceControlsKeepsWords(page: string)
    ensures Split(ReplaceControls(page)) == Split(page)
  {
    SameWords(ReplaceControls(page), page);
  }

  /** Two strings with whitespace at the same places and equal elsewhere have the same words. */
  lemma {:induction false} SameWords(s: string, t: string)
    requires |s| == |t|
    requires forall i :: 0 <= i < |s| ==> IsSpace(s[i]) == IsSpace(t[i])
    requires forall i :: 0 <= i < |s| && !IsSpace(s[i]) ==> s[i] == t[i]
    ensures Split(s) == Split(t)
    decreases |s|
  {
    if s != [] {
      if IsSpace(s[0]) {
        SameWords(s[1..], t[1..]);
      } else {
        var k := WordLen(s);
        SameWordLen(s, t);
        assert s[..k] == t[..k];
        SameWords(s[k..], t[k..]);
      }
    }
  }

  lemma {:induction false} SameWordLen(s: string, t: string)
    requires |s| == |t|
    requires forall i :: 0 <= i < |s| ==> IsSpace(s[i]) == IsSpace(t[i])
    ensures WordLen(s) == WordLen(t)
    decreases |s|
  {
    if s != [] && !IsSpace(s[0]) {
      SameWordLen(s[1..], t[1..]);
    }
  }

  /** `sterilize_page(page)`, with the lxml cleaner given as `clean`. */
  function SterilizePage(page: string, clean: string -> string): string {
    Normalize(clean(ReplaceControls(page)))
  }

  /**
    Whatever the cleaner returns, the sterilized page has no newline, carriage
    return or tab, no two whitespace characters in a row, and no whitespace at
    either end.
  */
  lemma {:induction false} SterilizedIsTidy(page: string, clean: string -> string)
    ensures Tidy(SterilizePage(page, clean))
    ensures forall i :: 0 <= i < |SterilizePage(page, clean)| ==> !IsControl(SterilizePage(page, clean)[i])
  {
    var r := SterilizePage(page, clean);
    NormalizeTidy(clean(ReplaceControls(page)));
    forall i | 0 <= i < |r|
      ensures !IsControl(r[i])
    {
      if IsSpace(r[i]) {
        assert r[i] == ' ';
      }
    }
  }

  /** Sterilizing keeps every word the cleaner leaves, in order. */
  lemma {:induction false} SterilizeKeepsWords(page: string, clean: string -> string)
    ensures Split(SterilizePage(page, clean)) == Split(clean(ReplaceControls(page)))
  {
    SplitJoin(Split(clean(ReplaceControls(page))));
  }
}
