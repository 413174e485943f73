/**
  The text "strong words" shows that `reinforce_text` as written depends on the
  iteration order of its token set. If `words` is substituted first, the later
  substitution of `strong` also matches the tag names in the `<strong>` and
  `</strong>` that the first substitution inserted, and nests tags inside tags.
  If `strong` is substituted first, the result is the intended one.

  Strings are written right-nested (`a + (b + c)`) throughout, so that the
  steps compose without re-associating long concatenations.
*/
module StrongOrder {
  import opened Chars
  import opened Whitespace
  import opened Emphasis
  import opened Substitution

  const Other := "words"
  /** The text `strong words`. */
  const Sample := TagName + (" " + Other)

  lemma {:induction false} OtherIsAlpha()
    ensures Other != [] && AllAlpha(Other) && |Other| > 4 && Other != TagName
  {
    var s := Other;
    assert s[0] == 'w' && s[1] == 'o' && s[2] == 'r' && s[3] == 'd' && s[4] == 's';
    assert s[0] != TagName[0];
  }

  // ---------------------------------------------------------------------
  // The token set of `a b`

  lemma {:induction false} AlphaLenOfRun(a: string, x: string)
    requires a != [] && AllAlpha(a)
    requires x == [] || !IsAlpha(x[0])
    ensures AlphaLen(a + x) == |a|
    decreases |a|
  {
    assert (a + x)[0] == a[0];
    assert (a + x)[1..] == a[1..] + x;
    if |a| > 1 {
      AlphaLenOfRun(a[1..], x);
    } else {
      assert a[1..] + x == x;
    }
  }

  lemma {:induction false} RunsOfTwo(a: string, b: string)
    requires a != [] && AllAlpha(a) && b != [] && AllAlpha(b)
    ensures AlphaRuns(a + (" " + b)) == [a, b]
  {
    var x := " " + b;
    AlphaLenOfRun(a, x);
    assert (a + x)[0] == a[0];
    assert (a + x)[..|a|] == a && (a + x)[|a|..] == x;
    assert AlphaRuns(a + x) == [a] + AlphaRuns(x);
    assert x[0] == ' ' && x[1..] == b;
    assert AlphaRuns(x) == AlphaRuns(b);
    assert b + [] == b;
    AlphaLenOfRun(b, []);
    assert b[..|b|] == b && b[|b|..] == [];
    assert AlphaRuns(b) == [b] + AlphaRuns([]);
  }

  /** The token set of `a b` is `{a, b}`, and both orders of it are possible iteration orders. */
  lemma {:induction false} TokensOfTwo(a: string, b: string)
    requires a != [] && AllAlpha(a) && b != [] && AllAlpha(b) && a != b
    ensures Tokens(a + (" " + b)) == {a, b}
    ensures IsEnumeration([a, b], Tokens(a + (" " + b)))
    ensures IsEnumeration([b, a], Tokens(a + (" " + b)))
  {
    TokensAreAlphaRuns(a + (" " + b));
    RunsOfTwo(a, b);
  }

  // ---------------------------------------------------------------------
  // One substitution over two words

  lemma {:induction false} WrapAlone(b: string)
    requires b != [] && AllAlpha(b)
    ensures ReSub(b, b, false) == Tag(b)
  {
    assert b == b + [];
    RunStep(b, [], b, false);
  }

  lemma {:induction false} KeepAlone(b: string, w: string)
    requires b != [] && AllAlpha(b) && w != [] && AllAlpha(w) && b != w
    ensures ReSub(b, w, false) == b
  {
    assert b == b + [];
    RunStep(b, [], w, false);
  }

  /** Substituting the first of two words separated by a space wraps it alone. */
  lemma {:induction false} FirstOfTwo(a: string, b: string)
    requires a != [] && AllAlpha(a) && b != [] && AllAlpha(b) && a != b
    ensures ReSub(a + (" " + b), a, false) == Tag(a) + (" " + b)
  {
    RunStep(a, " " + b, a, false);
    NonAlphaStep(' ', b, a, true);
    KeepAlone(b, a);
  }

  /** Substituting the second of two words separated by a space wraps it alone. */
  lemma {:induction false} SecondOfTwo(a: string, b: string)
    requires a != [] && AllAlpha(a) && b != [] && AllAlpha(b) && a != b
    ensures ReSub(a + (" " + b), b, false) == a + (" " + Tag(b))
  {
    RunStep(a, " " + b, b, false);
    NonAlphaStep(' ', b, b, true);
    WrapAlone(b);
  }

  /** Substituting a word other than `strong` after a wrapped word leaves the wrapped word alone. */
  lemma {:induction false} SecondAfterTag(a: string, b: string)
    requires a != [] && AllAlpha(a) && b != [] && AllAlpha(b)
    requires a != b && b != TagName
    ensures ReSub(Tag(a) + (" " + b), b, false) == Tag(a) + (" " + Tag(b))
  {
    TagStep(a, " " + b, b, false);
    NonAlphaStep(' ', b, b, false);
    WrapAlone(b);
  }

  // ---------------------------------------------------------------------
  // Substituting the tag name over existing markup

  /** Substituting a word `n` wraps it inside `</n>`. */
  lemma {:induction false} ClosingName(n: string)
    requires n != [] && AllAlpha(n)
    ensures ReSub("</" + (n + ">"), n, true) == "</" + (Tag(n) + ">")
  {
    MarkupIsNotWord();
    TwoMarks('<', '/', n + ">", n, true);
    RunStep(n, ">", n, false);
    NonAlphaStep('>', [], n, true);
    assert ['>'] + [] == ">";
  }

  lemma {:induction false} ClosingAfter(n: string, b: string)
    requires n != [] && AllAlpha(n) && b != [] && AllAlpha(b) && b != n
    ensures ReSub(">" + (b + ("</" + (n + ">"))), n, true) == ">" + (b + ("</" + (Tag(n) + ">")))
  {
    MarkupIsNotWord();
    NonAlphaStep('>', b + ("</" + (n + ">")), n, true);
    RunStep(b, "</" + (n + ">"), n, false);
    ClosingName(n);
  }

  lemma {:induction false} OpeningAfterSpace(n: string, b: string)
    requires n != [] && AllAlpha(n) && b != [] && AllAlpha(b) && b != n
    ensures ReSub(" " + Around(n, b), n, true) == " " + Around(Tag(n), b)
  {
    MarkupIsNotWord();
    var rest := ">" + (b + ("</" + (n + ">")));
    TwoMarks(' ', '<', n + rest, n, true);
    RunStep(n, rest, n, false);
    ClosingAfter(n, b);
  }

  /**
    Substituting a word `n` in `n <n>b</n>` wraps the word and both
    occurrences of `n` in the markup around `b`.
  */
  lemma {:induction false} NameWrapped(n: string, b: string)
    requires n != [] && AllAlpha(n) && b != [] && AllAlpha(b) && b != n
    ensures ReSub(n + (" " + Around(n, b)), n, false) == Tag(n) + (" " + Around(Tag(n), b))
  {
    RunStep(n, " " + Around(n, b), n, false);
    OpeningAfterSpace(n, b);
  }

  /** `strong b` after substituting `b` and then `strong`. */
  function Nested(b: string): string {
    Tag(TagName) + (" " + Around(Tag(TagName), b))
  }

  /**
    Both iteration orders over `n b`, before the final collapse, where `n` is
    the tag name.
  */
  lemma {:induction false} BothOrdersFor(n: string, b: string)
    requires n != [] && AllAlpha(n) && |n| > 4
    requires b != [] && AllAlpha(b) && |b| > 4 && b != n && b != TagName
    requires Tag(b) == Around(n, b)
    ensures Words([b, n]) && Words([n, b])
    ensures SubstituteAll(n + (" " + b), [b, n]) == Tag(n) + (" " + Around(Tag(n), b))
    ensures SubstituteAll(n + (" " + b), [n, b]) == Tag(n) + (" " + Tag(b))
  {
    var s := n + (" " + b);
    SecondOfTwo(n, b);
    NameWrapped(n, b);
    assert [b, n][1..] == [n] && [n][1..] == [];
    assert SubstituteAll(s, [b, n]) == SubstituteAll(ReSub(s, b, false), [n]);
    assert SubstituteAll(ReSub(s, b, false), [n]) == SubstituteAll(ReSub(ReSub(s, b, false), n, false), []);
    FirstOfTwo(n, b);
    SecondAfterTag(n, b);
    assert [n, b][1..] == [b] && [b][1..] == [];
    assert SubstituteAll(s, [n, b]) == SubstituteAll(ReSub(s, n, false), [b]);
    assert SubstituteAll(ReSub(s, n, false), [b]) == SubstituteAll(ReSub(ReSub(s, n, false), b, false), []);
  }

  /** Both iteration orders over `strong b`, before the final collapse. */
  lemma {:induction false} BothOrders(b: string)
    requires b != [] && AllAlpha(b) && |b| > 4 && b != TagName
    ensures Words([b, TagName]) && Words([TagName, b])
    ensures SubstituteAll(TagName + (" " + b), [b, TagName]) == Nested(b)
    ensures SubstituteAll(TagName + (" " + b), [TagName, b]) == Tag(TagName) + (" " + Tag(b))
  {
    TagNameIsAlpha();
    BothOrdersFor(TagName, b);
  }

  // ---------------------------------------------------------------------
  // The final collapse

  /** Two whitespace-free words around one space are already collapsed. */
  lemma {:induction false} CollapseTwoWords(a: string, b: string)
    requires a != [] && NoSpace(a) && b != [] && NoSpace(b)
    ensures Collapse(a + (" " + b)) == a + (" " + b) + " "
  {
    var ws := [a, b];
    assert ProperWords(ws);
    assert Join(ws[1..]) == b;
    assert Join(ws) == a + (" " + b);
    SplitJoin(ws);
  }

  /**
    The as-written helper gives different outputs for the two iteration orders
    of the token set of `strong b`: with `b` first, the tag names get wrapped too.
  */
  lemma {:induction false} OrderMattersFor(b: string)
    requires b != [] && AllAlpha(b) && |b| > 4 && b != TagName
    ensures IsEnumeration([b, TagName], Tokens(TagName + (" " + b)))
    ensures IsEnumeration([TagName, b], Tokens(TagName + (" " + b)))
    ensures ReinforceAsWritten(TagName + (" " + b), [b, TagName]) == Nested(b) + " "
    ensures ReinforceAsWritten(TagName + (" " + b), [TagName, b]) == Tag(TagName) + (" " + Tag(b)) + " "
    ensures ReinforceAsWritten(TagName + (" " + b), [b, TagName]) != ReinforceAsWritten(TagName + (" " + b), [TagName, b])
  {
    TagNameIsAlpha();
    TokensOfTwo(TagName, b);
    BothOrders(b);
    AlphaNoSpace(TagName);
    AlphaNoSpace(b);
    TagIsSolid(TagName);
    TagIsSolid(b);
    AroundNoSpace(Tag(TagName), b);
    CollapseTwoWords(Tag(TagName), Around(Tag(TagName), b));
    CollapseTwoWords(Tag(TagName), Tag(b));
  }

  /**
    `reinforce_text("strong words")` as written: substituting `words` before
    `strong` nests tags, substituting `strong` first does not, and both are
    iteration orders of the same token set.
  */
  lemma {:induction false} OrderMatters()
    ensures IsEnumeration([Other, TagName], Tokens(Sample))
    ensures IsEnumeration([TagName, Other], Tokens(Sample))
    ensures ReinforceAsWritten(Sample, [Other, TagName]) != ReinforceAsWritten(Sample, [TagName, Other])
  {
    OtherIsAlpha();
    OrderMattersFor(Other);
  }

  /** The single-pass rewrite of `strong b` is the strong-first result, `<strong>strong</strong> <strong>b</strong> `. */
  lemma {:induction false} SampleReinforced(b: string)
    requires b != [] && AllAlpha(b) && |b| > 4 && b != TagName
    ensures Reinforce(TagName + (" " + b)) == Tag(TagName) + (" " + Tag(b)) + " "
  {
    OrderMattersFor(b);
    AsWrittenAgrees(TagName + (" " + b), [TagName, b]);
  }
}
