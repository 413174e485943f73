/**
  Character classes used by the page pipeline.

  - `IsSpace` is Python's `str.isspace`, which is also what `str.split()` and
    `str.strip()` split and strip on.
  - `IsAlpha` is `str.isalpha` (Unicode letter categories), approximated by
    the letter ranges of parts of the Latin, Greek, Cyrillic, kana and CJK
    blocks; Latin Extended Additional and the start of the Greek block, among
    others, are not covered.
  - `IsWordChar` is the class of characters the regular-expression word
    boundary `\b` looks at: letters, digits, numerics and `_`, approximated
    the same way.

  The rest of the model only relies on the facts proved below: every letter is a
  word character, no word character is whitespace, and the characters of the
  inserted markup (`<`, `>`, `/`) are neither.
*/
module Chars {

  predicate IsSpace(c: char) {
    || ('\t' <= c <= '\r')
    || ('\U{001C}' <= c <= ' ')
    || c == '\U{0085}' || c == '\U{00A0}' || c == '\U{1680}'
    || ('\U{2000}' <= c <= '\U{200A}')
    || c == '\U{2028}' || c == '\U{2029}' || c == '\U{202F}' || c == '\U{205F}'
    || c == '\U{3000}'
  }

  predicate IsAlpha(c: char) {
    || ('A' <= c <= 'Z') || ('a' <= c <= 'z')
    || c == '\U{00AA}' || c == '\U{00B5}' || c == '\U{00BA}'
    || ('\U{00C0}' <= c <= '\U{00D6}') || ('\U{00D8}' <= c <= '\U{00F6}')
    || ('\U{00F8}' <= c <= '\U{02C1}')
    || ('\U{0388}' <= c <= '\U{038A}') || c == '\U{0386}' || c == '\U{038C}'
    || ('\U{038E}' <= c <= '\U{03A1}') || ('\U{03A3}' <= c <= '\U{03F5}')
    || ('\U{03F7}' <= c <= '\U{0481}') || ('\U{048A}' <= c <= '\U{052F}')
    || ('\U{3041}' <= c <= '\U{3096}') || ('\U{309D}' <= c <= '\U{309F}')
    || ('\U{30A1}' <= c <= '\U{30FA}') || ('\U{30FC}' <= c <= '\U{30FF}')
    || ('\U{4E00}' <= c <= '\U{9FFF}')
  }

  /** Numeric characters that count as word characters without being letters. */
  predicate IsNumeric(c: char) {
    || ('0' <= c <= '9')
    || c == '\U{00B2}' || c == '\U{00B3}' || c == '\U{00B9}'
    || ('\U{00BC}' <= c <= '\U{00BE}')
    || ('\U{0660}' <= c <= '\U{0669}')
    || ('\U{FF10}' <= c <= '\U{FF19}')
  }

  predicate IsWordChar(c: char) {
    IsAlpha(c) || IsNumeric(c) || c == '_'
  }

  predicate AllAlpha(s: string) {
    forall i :: 0 <= i < |s| ==> IsAlpha(s[i])
  }

  predicate NoSpace(s: string) {
    forall i :: 0 <= i < |s| ==> !IsSpace(s[i])
  }

  lemma {:induction false} AlphaIsWord(c: char)
    ensures IsAlpha(c) ==> IsWordChar(c)
  {
  }

  lemma {:induction false} WordIsNotSpace(c: char)
    ensures IsWordChar(c) ==> !IsSpace(c)
  {
  }

  lemma {:induction false} AlphaNoSpace(s: string)
    requires AllAlpha(s)
    ensures NoSpace(s)
  {
    forall i | 0 <= i < |s| ensures !IsSpace(s[i]) {
      AlphaIsWord(s[i]);
      WordIsNotSpace(s[i]);
    }
  }

  lemma {:induction false} NoSpaceAppend(a: string, b: string)
    requires NoSpace(a) && NoSpace(b)
    ensures NoSpace(a + b)
  {
    forall i | 0 <= i < |a + b| ensures !IsSpace((a + b)[i]) {
      if i >= |a| {
        assert (a + b)[i] == b[i - |a|];
      }
    }
  }

  lemma {:induction false} MarkupIsNotWord()
    ensures !IsWordChar('<') && !IsWordChar('>') && !IsWordChar('/')
    ensures !IsSpace('<') && !IsSpace('>') && !IsSpace('/')
  {
  }
}
