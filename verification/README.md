# Page parser helpers, modelled in Dafny

This project models the text-processing core of the `pageparser` Django app,
`django/apps/pageparser/helpers.py`:

- `absolutize_url` joins a site root and a relative path with exactly one `/`
  between them, or gives `None` when neither side has the slash (`Urls`);
- `schemeful_domain` reduces a URL to its site root, `scheme://netloc/`
  (`Urls`);
- `reinforce_text` wraps every whole word of more than four letters in
  `<strong>…</strong>`, collapses whitespace and appends one space. It is
  modelled twice. `Emphasis` is a single left-to-right pass. `Substitution`
  is the helper as written: one `re.sub` per distinct token, in the iteration
  order of the token set. The two are proved equal for every iteration order
  in which the token `strong` comes before every token of more than four
  letters. `StrongOrder` shows that the as-written helper can depend on the
  order otherwise;
- the string steps of `sterilize_page`: newline, carriage return and tab become
  spaces, the HTML cleaner runs, and whitespace is collapsed (`Sterilize`);
- the two tree passes of `process_page` over a parsed element tree (`Tree`).
  The anchor pass moves each non-blank anchor text into a new `<em>` child,
  repairs a rejected `href`, and removes anchors without text. The emphasis
  pass applies `reinforce_text` to every non-blank text and tail.

Supporting modules:

- `Chars` holds the character classes: `str.isspace` exactly, and
  approximations of `str.isalpha` and of the word characters of the
  regular-expression `\b`.
- `Whitespace` defines `' '.join(s.split())` by splitting into words. It also
  gives an equivalent streaming form, proved equal to the split form.

When the emphasis pass rewrites a text, it uses the single-pass
`Emphasis.Reinforce`. That function gives the intended result of
`reinforce_text` (see Findings).

An anchor without text is removed with lxml's `getparent().remove(a_tag)`
(helpers.py:120), which discards the removed element's tail together with the
element. `Tree.Prune` and `Tree.Anchors` drop it too, along with its children.

## Model

| member | source | states |
|---|---|---|
| Urls.AbsolutizeUrl | django/apps/pageparser/helpers.py:11-25 | Exactly one `/` at the join. A result exists exactly when the address ends with `/` or the path starts with `/`. The result is then the address without its trailing slash, one `/`, and the path without its leading slash. It starts with the whole address and ends with the path minus its leading slash. |
| Urls.SchemefulDomain | django/apps/pageparser/helpers.py:50-57 | The site root always ends with `/` and starts with the parsed scheme followed by `://`. |
| Urls.UrlSplit | django/apps/pageparser/helpers.py:56 | No contract of its own. `Urls.UrlSplitOfParts` specifies it: `scheme://host` followed by nothing or by a path, query or fragment splits into the lower-cased scheme and the host, for a scheme in any letter case. `Urls.SiteRootOf` carries this through `Urls.SchemefulDomain`. |
| Urls.SiteRootOf | django/apps/pageparser/tests.py:103-118 | For `scheme://host` followed by nothing or by a path, query or fragment, the site root is `scheme://host/` with the scheme lower-cased (so `HTTP://host/x` gives `http://host/`). |
| Whitespace.NormalizeTidy | django/apps/pageparser/helpers.py:80 | `' '.join(s.split())` has only plain spaces as whitespace, never two in a row, and none at either end. |
| Whitespace.SplitJoin | django/apps/pageparser/helpers.py:47 | Splitting a space-joined list of non-empty whitespace-free words gives back the same list. |
| Whitespace.NormalizeIdempotent | django/apps/pageparser/helpers.py:80 | Collapsing whitespace twice gives the same result as collapsing it once. |
| Whitespace.CollapseShape | django/apps/pageparser/helpers.py:47 | `' '.join(s.split()) + ' '` ends in exactly one space, and everything before that space is collapsed. The result starts with whitespace only when it is the single space. |
| Whitespace.SqueezeIsNormalize | django/apps/pageparser/helpers.py:47 | The character-by-character collapse used inside the emphasis proofs equals `' '.join(s.split())`. |
| Whitespace.Normalize | django/apps/pageparser/helpers.py:80 | No contract of its own. `Whitespace.NormalizeTidy`, `Whitespace.SplitJoin` and `Whitespace.NormalizeIdempotent` specify it. |
| Whitespace.Collapse | django/apps/pageparser/helpers.py:47 | No contract of its own. `Whitespace.CollapseShape` specifies it. |
| Emphasis.ScanWrapsExactly | django/apps/pageparser/helpers.py:40-44 | The single pass wraps a span of the text if and only if it is a whole word: more than four letters, all letters, with no word character on either side. |
| Emphasis.ScanFlattens | django/apps/pageparser/helpers.py:40-44 | Removing the inserted markup from the pass's pieces gives back the input text exactly. |
| Emphasis.ReinforceWrapsOnlyLongWords | django/apps/pageparser/helpers.py:43-44 | Every word wrapped in `<strong>` is a run of more than four letters. |
| Emphasis.ReinforceShape | django/apps/pageparser/helpers.py:47 | The output of `reinforce_text` is collapsed text followed by exactly one space, as tests.py:92-98 expect. Since that output is a `Whitespace.Collapse`, `Whitespace.CollapseShape` adds that it starts with whitespace only when it is the single space. |
| Emphasis.EmphasizedRenders | django/apps/pageparser/helpers.py:40-47 | The output of `reinforce_text` is a sequence of plain and wrapped pieces: collapsing whitespace never splits or touches a wrapped word. |
| Emphasis.ReinforceUnwraps | django/apps/pageparser/helpers.py:34-47 | With the inserted tags removed, the output is the whitespace-collapsed input plus one space. No word is lost, added or changed. |
| Emphasis.EmphasizedKeepsWords | django/apps/pageparser/helpers.py:40-47 | The whitespace collapse keeps the wrapped words, in order, exactly as the pass chose them. |
| Emphasis.Scan | django/apps/pageparser/helpers.py:40-44 | No contract of its own. `Emphasis.ScanWrapsExactly` and `Emphasis.ScanFlattens` specify it. |
| Emphasis.Reinforce | django/apps/pageparser/helpers.py:28-47 | No contract of its own. `Emphasis.ReinforceShape`, `Emphasis.ReinforceUnwraps`, `Emphasis.EmphasizedRenders` and `Emphasis.ReinforceWrapsOnlyLongWords` specify it. `Substitution.AsWrittenAgrees` relates it to the helper as written. |
| Substitution.TokensAreAlphaRuns | django/apps/pageparser/helpers.py:40 | Masking non-letters with spaces and splitting gives exactly the maximal letter runs of the text, in order. |
| Substitution.Mask | django/apps/pageparser/helpers.py:40 | Each letter is kept and every other character becomes a space, at the same position; `Substitution.TokensAreAlphaRuns` specifies what splitting it gives. |
| Substitution.Tokens | django/apps/pageparser/helpers.py:40 | No contract of its own. `Substitution.TokensAreAlphaRuns` specifies it: the set of maximal letter runs of the text. |
| Substitution.StrongWordsAreRuns | django/apps/pageparser/helpers.py:40-44 | Every word the pass wraps is one of the tokens the helper iterates over. |
| Substitution.AsWrittenAgrees | django/apps/pageparser/helpers.py:40-47 | The sequential `re.sub` loop gives the single-pass result for any iteration order of the token set in which `strong` comes before every token of more than four letters. |
| Substitution.AnyOrderAgrees | django/apps/pageparser/helpers.py:40-47 | When the text has no token `strong`, the loop gives the single-pass result for every iteration order, as the helper's comment ("each word will be wrapped exactly once") promises. |
| Substitution.ReSub | django/apps/pageparser/helpers.py:44 | No contract of its own. `Substitution.SubstituteOne` specifies it: substituting a new long token into a text where a set of words is wrapped gives the text where that set and the token are wrapped, unless the token is `strong` and some word is already wrapped (then the existing tag names match too, as `StrongOrder.OrderMattersFor` shows). |
| Substitution.SubstituteAll | django/apps/pageparser/helpers.py:40-44 | No contract of its own. `Substitution.AsWrittenAgrees` and `StrongOrder.OrderMattersFor` specify it. |
| Substitution.ReinforceAsWritten | django/apps/pageparser/helpers.py:28-47 | No contract of its own. `Substitution.AsWrittenAgrees`, `Substitution.AnyOrderAgrees` and `StrongOrder.OrderMatters` specify it. |
| StrongOrder.OrderMatters | django/apps/pageparser/helpers.py:40-44 | For `strong words`, both orders are iteration orders of the same token set, yet the loop as written gives two different outputs. |
| StrongOrder.OrderMattersFor | django/apps/pageparser/helpers.py:40-47 | For `strong b`, substituting `b` first nests tags inside the inserted tag names. Substituting `strong` first gives two plain wrapped words. |
| StrongOrder.SampleReinforced | django/apps/pageparser/helpers.py:40-47 | The single pass gives the strong-first result for `strong b`: each word wrapped once. |
| Sterilize.ReplaceControls | django/apps/pageparser/helpers.py:67-69 | The length is kept. Each newline, carriage return and tab becomes a space, every other character stays in place, and none of the three is left. |
| Sterilize.Replace | django/apps/pageparser/helpers.py:67-69 | One `str.replace` of a character by another: same length, and each occurrence replaced with every other character kept. `Sterilize.ReplaceControls` composes three of them. |
| Sterilize.ReplaceControlsKeepsWords | django/apps/pageparser/helpers.py:67-69 | The replacement changes no word of the page. |
| Sterilize.SterilizedIsTidy | django/apps/pageparser/helpers.py:60-80 | Whatever the cleaner returns, the sterilized page has no control whitespace, no doubled whitespace and no whitespace at either end. |
| Sterilize.SterilizeKeepsWords | django/apps/pageparser/helpers.py:80 | The final collapse keeps every word the cleaner produced, in order. |
| Sterilize.SterilizePage | django/apps/pageparser/helpers.py:60-80 | No contract of its own. `Sterilize.SterilizedIsTidy` and `Sterilize.SterilizeKeepsWords` specify it. |
| Tree.FixHref | django/apps/pageparser/helpers.py:107-116 | A valid `href` is kept. A rejected one becomes the target's site root followed by the path without its leading slash: since the site root ends with `/`, `absolutize_url` never returns `None` here. No other attribute changes and no attribute is added. |
| Tree.Em | django/apps/pageparser/helpers.py:102-103 | No contract of its own. `Tree.AnchorsSettle` and `Tree.LinkAnchored` specify where it is placed and what it holds. |
| Tree.AnchorsSettle | django/apps/pageparser/helpers.py:94-120 | The anchor pass maps the tree with textless anchors cut out, node by node, onto its result. Tags and tails are kept. An anchor's text moves into a new first `<em>` child and its `href` is fixed. Every other node keeps its attributes and text. |
| Tree.PruneRemoves | django/apps/pageparser/helpers.py:118-120 | After removal, no anchor without text is left anywhere in the tree. |
| Tree.PruneKeepsClean | django/apps/pageparser/helpers.py:118-120 | A tree without textless anchors is not changed by removal. |
| Tree.PruneIdempotent | django/apps/pageparser/helpers.py:118-120 | Removing textless anchors twice is the same as removing them once. |
| Tree.Prune | django/apps/pageparser/helpers.py:118-120 | No contract of its own. `Tree.PruneRemoves`, `Tree.PruneKeepsClean` and `Tree.PruneIdempotent` specify it. |
| Tree.AnchorPassKeepsText | django/apps/pageparser/helpers.py:94-120 | The anchor pass loses no text except what the removed anchors held and their tails. The document text of the result equals that of the input with textless anchors, and their tails, removed. |
| Tree.Anchors | django/apps/pageparser/helpers.py:95-120 | No contract of its own. `Tree.AnchorsSettle` specifies it. |
| Tree.AnchorPass | django/apps/pageparser/helpers.py:95-120 | No contract of its own. `Tree.AnchorsSettle` (on the root's children) and `Tree.AnchorPassKeepsText` specify it. |
| Tree.EmphasisKeepsShape | django/apps/pageparser/helpers.py:122-130 | The emphasis pass changes no tag, attribute or child structure. |
| Tree.EmphasisTouchesSlots | django/apps/pageparser/helpers.py:122-130 | Every text and tail slot, in document order, is replaced by `reinforce_text` of it when non-blank and is otherwise left alone. |
| Tree.ShapeAndSlotsDetermine | django/apps/pageparser/helpers.py:122-130 | A tree is determined by its structure and its text slots, so the two properties above describe the emphasis pass completely. |
| Tree.TouchedIsTidy | django/apps/pageparser/helpers.py:126-130 | A rewritten text slot ends in one space after collapsed text. A blank or missing one is unchanged. |
| Tree.Touch | django/apps/pageparser/helpers.py:126-130 | No contract of its own. `Tree.TouchedIsTidy` specifies it. |
| Tree.EmphasisNode | django/apps/pageparser/helpers.py:124-130 | No contract of its own. `Tree.EmphasisKeepsShape`, `Tree.EmphasisTouchesSlots` and `Tree.ShapeAndSlotsDetermine` specify it. |
| Tree.ProcessPageSpec | django/apps/pageparser/helpers.py:83-130 | `process_page` on a parsed tree: the result has the structure of the anchor pass's result, and its slots are those of the anchor pass's result, each passed through `reinforce_text` when non-blank. |
| Tree.ProcessPage | django/apps/pageparser/helpers.py:83-130 | No contract of its own. `Tree.ProcessPageSpec` specifies it. |
| Tree.EmptyLinkRemoved | django/apps/pageparser/tests.py:154-159 | A page whose only child is a textless anchor loses it. The page's own text is only emphasised. |
| Tree.LinkAnchored | django/apps/pageparser/tests.py:147-152 | On a page whose only child is a text-bearing anchor, the anchor pass gives an anchor with the same tail, a fixed `href`, no own text, and one `<em>` child holding the link text. |
| Tree.LinkEmphasised | django/apps/pageparser/tests.py:147-152 | The emphasis pass over such an anchor emphasises the text inside the `<em>` and the anchor's tail, and changes nothing else. |
| Tree.RelativeLinkFixed | django/apps/pageparser/tests.py:161-166 | A rejected relative `href` on a page from `scheme://host/...` becomes `scheme://host/`, with the scheme lower-cased, followed by the path without its leading slash. |
| Tree.RaisesExactly | django/apps/pageparser/helpers.py:95-120 | The anchor pass with its error path raises `KeyError` exactly when some visited text-bearing anchor, even one inside a removed anchor, has no `href`. When it does not raise, it gives `Tree.Anchors`. |
| Tree.AnchorsOrRaise | django/apps/pageparser/helpers.py:95-120 | No contract of its own. `Tree.RaisesExactly` specifies it. |
| Tree.NamedAnchorRaises | django/apps/pageparser/helpers.py:109-112 | A page holding `<a name="top">Top</a>` makes the pass as written raise. |
| Tree.TotalAgrees | django/apps/pageparser/helpers.py:95-120 | The pass that leaves a link without `href` unfixed gives the same tree as the pass as written wherever the latter does not raise. |
| Tree.AnchorsTotal | django/apps/pageparser/helpers.py:95-120 | No contract of its own. `Tree.TotalAgrees` and `Tree.NamedAnchorKept` specify it. |
| Tree.NamedAnchorKept | django/apps/pageparser/helpers.py:95-120 | That pass turns `<a name="top">Top</a>` into `<a name="top"><em>Top</em></a>`. |

## Left out

- HTML parsing, serialisation and the final `html.unescape` are left out. The model works on an element tree and on strings; lxml's parser and serialiser are library code.
- The lxml `Cleaner` is the parameter `clean` of `Sterilize.SterilizePage`. Nothing is assumed about it, so the properties hold for any cleaner.
- Django's `URLValidator` is the parameter `valid` of the anchor pass.
- Urls.SchemefulDomain: `urlparse` is reduced to finding the scheme and network location, as Python's `urlsplit` does. It does not model WHATWG stripping of leading control characters, the removal of tab and newline characters, or the `ValueError` for malformed IPv6 brackets.
- Chars: `str.isalpha` and the `\b` word class are approximated by letter and digit ranges covering parts of the common scripts, not the full Unicode tables. Latin Extended Additional is among the gaps, so `Nguyễn` is not wrapped where Python would wrap it.
- The `KeyError` that `a_tag.attrib['href']` raises for a text-bearing anchor without `href` is modelled by `Tree.AnchorsOrRaise` (see Findings). The rest of the tree model works under the precondition `Tree.HrefsPresent`, where that pass does not raise and `Tree.AnchorsTotal` agrees with `Tree.Anchors`.
- Tree: the anchor pass walks the children of the root recursively rather than over a list taken up front by `xpath`. This gives the same result because the work on different anchors commutes, and anchors inside a removed anchor are handled on a detached subtree whose result is discarded with it. Comments and processing instructions are not nodes of the model.
- Substitution.ReinforceAsWritten: the iteration order of a Python `set` is not modelled. It is an argument, and every result is stated for all enumerations of the token set or for a named class of them.
- The tree passes use the single-pass `Emphasis.Reinforce` rather than the order-dependent as-written loop (see Findings).
- Views, forms, the admin and the database model of the app are not part of this model.

## Findings

| source | as written | input that shows it | evidently intended | confidence | as-written member | corrected member |
|---|---|---|---|---|---|---|
| django/apps/pageparser/helpers.py:40-44 | Each long token is substituted with `re.sub(r'\bw\b', '<strong>w</strong>', text)` into the already rewritten text, in the set's iteration order. A later token `strong` therefore also matches the tag names inserted before it. | `reinforce_text("strong words")` with `words` iterated before `strong`, which gives `<strong>strong</strong> <<strong>strong</strong>>words</<strong>strong</strong>> ` | Each eligible word wrapped exactly once, whatever the order: `<strong>strong</strong> <strong>words</strong> ` | not executed | StrongOrder.OrderMatters | StrongOrder.SampleReinforced |
| django/apps/pageparser/helpers.py:109-112 | `a_tag.attrib['href']` is read for every anchor with text, and only `ValidationError` is caught, so an anchor with text but no `href` raises `KeyError` and `process_page` fails. | A page holding `<a name="top">Top</a>` | The anchor is kept with its text in `<em>`; there is no `href` to fix. | not executed | Tree.NamedAnchorRaises | Tree.NamedAnchorKept |
