# wagtail-footnotes: the footnote rewrite of rich text

This project models the core of wagtail-footnotes. `RichTextBlockWithFootnotes`
is a Wagtail rich-text block. The editor stores a footnote reference in the
text as `<footnote id="UUID">label</footnote>`. When the block is rendered,
every such marker is replaced by a numbered superscript link:

    <a href="#footnote-N" id="footnote-source-N-K"><sup>[N]</sup></a>

Two attributes on the page being rendered carry the state from one marker to
the next, and from one block to the next:

- `footnotes_list`: the footnotes referenced so far, in order of first
  reference. N is the 1-based position of a footnote in this list.
- `footnotes_references`: maps a footnote's uuid to the link ids generated for
  it so far. K counts earlier links to the same footnote, from 0.

The template filter `get_reference_ids` reads those link ids back, so that the
footnote list at the bottom of the page can link back to each reference.

Modules:

- `Wrappers`: `Option`.
- `Seqs`: generic facts about sequences: associativity of concatenation, and
  slices of concatenations and of slices.
- `Decimal`: `str(n)` for natural numbers, and proof that it can be read back.
- `FootnoteTag`: the pattern `FIND_FOOTNOTE_TAG` as a scanner.
  - It is proved equal to the lazy-match semantics of the regular expression.
    Python's `.` does not match a newline.
  - It also models the left-to-right, non-overlapping split of a string that
    `re.sub` performs.
- `Numbering`: `process_footnote` and `replace_tag` as functions on the page
  state.
  - `ValidState` is the page-state invariant.
  - The link ids on a page are proved distinct.
- `Substitution`: `re.sub(replace_tag, html)` as a function. It threads the
  page state through the markers.
- `Blocks`: the block and the page as classes. Their methods update the page in
  place and are proved against the functions above.
- `FootnoteTags`: the template filter.

## Model

| member | source | states |
|---|---|---|
| FootnoteTag.FirstOccurrence | wagtail_footnotes/blocks.py:12 | The first position at or after `i` where a literal part of the pattern occurs, or `None` when it occurs nowhere after `i`. |
| FootnoteTag.MatchAt | wagtail_footnotes/blocks.py:12 | A match starting at `p` lies inside the string, has room for the three literal parts, and captures as its id the text right after `<footnote id="`. |
| FootnoteTag.MatchAtIsLazyMatch | wagtail_footnotes/blocks.py:12 | The scanner finds a match at `p` exactly when the regular expression matches there. The match it finds is the lazy one: the shortest id, then the shortest label. Neither may hold a newline. |
| FootnoteTag.MatchAtSound | wagtail_footnotes/blocks.py:12 | A reported match is the lazy match of the pattern. |
| FootnoteTag.MatchAtComplete | wagtail_footnotes/blocks.py:12 | Wherever the pattern can match at `p`, the scanner reports a match. |
| FootnoteTag.LazyMatchIsMatchAt | wagtail_footnotes/blocks.py:12 | The lazy match at `p` is the match the scanner reports there. Group 1 is the text between `<footnote id="` and the end of the lazy id, and the match ends just past `</footnote>`. |
| FootnoteTag.NoMatchWhereNoCandidate | wagtail_footnotes/blocks.py:12 | Where the pattern can match at no position of a stretch, the scanner reports no match anywhere in it. |
| FootnoteTag.Tokens | wagtail_footnotes/blocks.py:68 | The split `re.sub` makes: where the pattern matches, the whole marker is one piece and scanning resumes after it; elsewhere one character is copied. The pieces spell out the scanned text, so nothing is lost or reordered. |
| FootnoteTag.NoCandidateAllText | wagtail_footnotes/blocks.py:68 | Where the pattern matches nowhere, every scanned piece is a copied character. |
| FootnoteTag.TextRun | wagtail_footnotes/blocks.py:68 | A stretch where no match starts is scanned one character at a time. |
| FootnoteTag.WellFormedMarkerIsLazy | wagtail_footnotes/blocks.py:12 | A marker as the editor writes it is the lazy match at its own position. The id holds no `"`, the label no `<`, and neither holds a newline. |
| FootnoteTag.WellFormedMarkerMatches | wagtail_footnotes/blocks.py:12 | Such a marker is matched whole, and its uuid is the captured id. |
| Decimal.DecimalString | wagtail_footnotes/blocks.py:63 | The number as written in an f-string: at least one digit, and a leading `0` only for zero. |
| Decimal.DecimalRoundTrip | wagtail_footnotes/blocks.py:63 | Reading the digits back gives the number. |
| Decimal.DecimalStringInjective | wagtail_footnotes/blocks.py:63 | Different numbers are written differently. |
| Numbering.ByUuid | wagtail_footnotes/blocks.py:46-48 | The page's footnotes indexed by uuid: every uuid is a key, each entry is filed under its own uuid, and every entry is one of the page's footnotes. |
| Numbering.IndexOf | wagtail_footnotes/blocks.py:88 | `list.index`: the first position that holds the element. |
| Numbering.DisplayIndex | wagtail_footnotes/blocks.py:88 | The 1-based index of a listed footnote: the entry at that index is the footnote, and no earlier entry is. |
| Numbering.Process | wagtail_footnotes/blocks.py:83-88 | A footnote already listed keeps the list and its own 1-based index. A new footnote is appended and gets the next index. In both cases the returned index points at the footnote. |
| Numbering.References | wagtail_footnotes/blocks.py:63-64 | `footnotes_references[uuid]` read through the `defaultdict`: the recorded ids of a referenced uuid, `[]` for any other. |
| Numbering.Resolve | wagtail_footnotes/blocks.py:50-65 | An unknown uuid gives `""` and leaves the page state unchanged. A known uuid is listed and gets link id `footnote-source-{index}-{count of earlier links}`; that id is appended to its references, and the anchor carries both. |
| Numbering.LinkIdFormat | wagtail_footnotes/blocks.py:63 | A link id is `footnote-source-`, the digits of the index, `-`, and the digits of the counter, and each digit run reads back as its number. It holds no `"`, so it stays inside the `id` attribute. |
| Numbering.AnchorFormat | wagtail_footnotes/blocks.py:65 | The anchor is the href part, then exactly the link id, then the label part. |
| Numbering.HrefPartFormat | wagtail_footnotes/blocks.py:65 | The href part is `<a href="#footnote-`, the digits of the index (which read back as the index), and `" id="`. |
| Numbering.LabelPartFormat | wagtail_footnotes/blocks.py:65 | The label part is `"><sup>[`, the digits of the index (which read back as the index), and `]</sup></a>`. |
| Numbering.LinkIdsAt | wagtail_footnotes/blocks.py:57-64 | The k-th recorded link id of a footnote is `footnote-source-{index}-{k}`. |
| Numbering.LinkIdsLength | wagtail_footnotes/blocks.py:63-64 | Recording n links gives n ids. |
| Numbering.SplitAtDash | wagtail_footnotes/blocks.py:63 | A string made of a digit run, `-` and a rest splits at that dash in one way only. |
| Numbering.LinkIdInjective | wagtail_footnotes/blocks.py:57-63 | Equal link ids come from the same footnote index and the same counter. |
| Numbering.IndexOfPrefix | wagtail_footnotes/blocks.py:85-88 | Appending to the list does not change the index of a footnote already in it. |
| Numbering.DisplayIndexIsPosition | wagtail_footnotes/blocks.py:87-88 | In a duplicate-free list, a footnote's display index is its position plus one. |
| Numbering.FreshIsValid | wagtail_footnotes/blocks.py:42-45 | The state right after the two attributes are created satisfies the page invariant. |
| Numbering.ProcessKeepsDistinct | wagtail_footnotes/blocks.py:85-86 | A footnote is appended only when it is not yet listed, so a duplicate-free list stays duplicate-free. |
| Numbering.ResolveKeepsDistinct | wagtail_footnotes/blocks.py:83-88 | Resolving a marker keeps the page list free of duplicates. |
| Numbering.ResolveKeepsListed | wagtail_footnotes/blocks.py:63-64 | Every listed footnote is a footnote of the page and has at least one recorded link id. |
| Numbering.ResolveKeepsReferences | wagtail_footnotes/blocks.py:57-64 | After a marker is resolved, each footnote's recorded link ids are still `footnote-source-{index}-0` to `-{n-1}` for its current index. |
| Numbering.KeptReference | wagtail_footnotes/blocks.py:85-88 | Ids numbered by a footnote's index stay correctly numbered when the list only grows behind it and the ids are left alone. |
| Numbering.ResolvedReferences | wagtail_footnotes/blocks.py:63-64 | The resolved footnote is listed, and its link ids, one longer, are still `footnote-source-{index}-0` to `-{n-1}`. |
| Numbering.ResolveExtends | wagtail_footnotes/blocks.py:63-88 | Resolving a marker only adds: the list keeps its prefix and every listed footnote keeps its display index; every referenced uuid stays referenced and its earlier ids stay in front. |
| Numbering.ResolvePreservesValid | wagtail_footnotes/blocks.py:50-65 | Replacing one marker preserves the page invariant: distinct listed footnotes of the page; exactly the listed ones have references; and the k-th reference is `footnote-source-{index}-{k}`. |
| Numbering.LinkIdsDistinct | wagtail_footnotes/blocks.py:57-62 | On a valid page every link id is generated once, so the ids are unique on the page. |
| Numbering.FirstTwoReferences | tests/test/test_blocks.py:151-166 | Two references to the same footnote on a fresh page both show `[1]`. Their link ids are `footnote-source-1-0` and `footnote-source-1-1`, and the references map holds exactly those two ids. |
| Substitution.Replace | wagtail_footnotes/blocks.py:50-68 | A copied character or an unknown uuid leaves the page state as it was. A known marker lists its footnote and adds exactly one link id for it. Either way the state is only added to. |
| Substitution.Substitute | wagtail_footnotes/blocks.py:68 | The replacements threaded left to right: the page state is only added to, so list entries stay in place and link ids are only appended. |
| Substitution.Rewrite | wagtail_footnotes/blocks.py:68 | Rewriting a whole fragment only adds to the page state. |
| Substitution.SubstituteText | wagtail_footnotes/blocks.py:68 | Copied characters come out as the text they were scanned from, and the state is unchanged. |
| Substitution.RewriteIdentity | wagtail_footnotes/blocks.py:68 | HTML in which the pattern matches nowhere is returned unchanged, and so is the page state. |
| Substitution.SubstituteAppend | wagtail_footnotes/blocks.py:68 | Substituting two runs of pieces one after the other is the same as substituting them together. |
| Substitution.SubstitutePreservesValid | wagtail_footnotes/blocks.py:50-68 | Every sequence of replacements preserves the page invariant. |
| Substitution.RewritePreservesValid | wagtail_footnotes/blocks.py:68 | Rewriting a whole fragment preserves the page invariant. |
| Substitution.RewriteContinuesNumbering | wagtail_footnotes/blocks.py:85-88 | A footnote listed before a block is rendered keeps its number after it. The list and the references only grow. |
| Substitution.TokensBefore | wagtail_footnotes/blocks.py:68 | Text before the first match is scanned character by character. |
| Substitution.TokensAfter | wagtail_footnotes/blocks.py:68 | Text after the last match is scanned character by character. |
| Substitution.TokensOfOneMarker | wagtail_footnotes/blocks.py:68 | With one match at `p`, the scan is the text before it, the marker, and the text after it. |
| Substitution.SubstituteAfterText | wagtail_footnotes/blocks.py:68 | Plain text in front of some pieces is copied as is and leaves the state unchanged. |
| Substitution.SubstituteMarkerThenText | wagtail_footnotes/blocks.py:50-68 | A marker followed by text: the marker is resolved and the text is copied. |
| Substitution.SubstituteAroundMarker | wagtail_footnotes/blocks.py:50-68 | Text, one marker, text: both texts are kept and the marker is resolved against the page state. |
| Substitution.RewriteOneMarker | tests/test/test_blocks.py:129-149 | A fragment with one match keeps the text around the marker as it is. The marker becomes what `replace_tag` returns for its id. |
| Blocks.NormalisedFeatures | wagtail_footnotes/blocks.py:24-30 | The feature list after construction: the given features (none, or an empty list, count as `[]`) in their order, plus `"footnotes"` once if it was missing; nothing else changes. |
| Blocks.NormalisedFeaturesIdempotent | wagtail_footnotes/blocks.py:28-29 | Normalising an already normalised feature list changes nothing. |
| Blocks.RichTextBlockWithFootnotes.constructor | wagtail_footnotes/blocks.py:24-30 | The block's features are the normalised list, and its footnotes map is empty. |
| Blocks.Page.constructor | wagtail_footnotes/blocks.py:42-45 | A page starts without the two attributes, in a valid state. |
| Blocks.RichTextBlockWithFootnotes.ProcessFootnote | wagtail_footnotes/blocks.py:83-88 | An unknown id (the KeyError) leaves the page list alone. A known id updates the list, and returns the index, as `Process`. |
| Blocks.RichTextBlockWithFootnotes.ReplaceTag | wagtail_footnotes/blocks.py:50-65 | The replacement text and the page's new state are those of `Resolve` on the old state. |
| Blocks.RichTextBlockWithFootnotes.SubstituteTags | wagtail_footnotes/blocks.py:68 | The loop's output and the page's new state equal the `Rewrite` of the HTML against the old state. |
| Blocks.RichTextBlockWithFootnotes.ReplaceFootnoteTags | wagtail_footnotes/blocks.py:32-68 | Without a page, the HTML is returned unchanged. With a page: both attributes exist afterwards; the block's footnotes are the page's, by uuid; output and new state are the `Rewrite` of the old state; and a valid page stays valid. The block's features never change. The page-less case is the one `tests/test/test_blocks.py` exercises at lines 124-127. |
| Blocks.RichTextBlockWithFootnotes.Render | wagtail_footnotes/blocks.py:70-77 | The rewrite applied to the host's rendering. Without a page the output is the host's HTML and the footnotes map is untouched. With a page: both attributes exist; the block's footnotes are the page's, by uuid; output and new state are the `Rewrite` of the old state; and a valid page stays valid. The features never change. |
| Blocks.RichTextBlockWithFootnotes.RenderBasic | wagtail_footnotes/blocks.py:79-81 | The rewrite applied to the host's basic rendering, with the same guarantees as `Render`: the HTML and footnotes map unchanged without a page; with one, both attributes, the footnotes by uuid, the `Rewrite` of the old state, and validity kept. |
| FootnoteTags.GetReferenceIds | wagtail_footnotes/templatetags/wagtailfootnotes_tags.py:7-15 | The recorded ids for a uuid when the page has the attribute and the uuid has references, `[]` otherwise. It never inserts into the map. |
| FootnoteTags.ReferenceIdsOfPage | wagtail_footnotes/templatetags/wagtailfootnotes_tags.py:13-15 | On a valid page the filter gives a non-empty list exactly for the footnotes that were referenced. The k-th id is `footnote-source-{index}-{k}`. |

## Left out

- The Django and Wagtail machinery is not modelled:
  - `super().__init__`, `get_context`, `get_template`, and the host's `render` / `render_basic`;
  - the `WAGTAIL_VERSION` keyword switch in `render`;
  - the copy of `context` into a new dict.

  The host's rendering is an input string. The page found in the context is a `Page?`, null when the context holds no `Page`.
- Render, RenderBasic: the choice between `render` with a template and `render_basic` depends on the host's template lookup. Each method is the rewrite applied after the host's output.
- The database query `page.footnotes.all()` is the constant `Page.footnotes`. Footnote objects compare by value, not by primary key as Django models do.
- `mark_safe` is not modelled. The output is the plain string.
- The `ValidationError` branch of `replace_tag` is folded into the unknown-uuid case. Both give `""` and leave the state unchanged. In this code the id is only looked up in the `self.footnotes` dict, which raises `KeyError` alone, so the `ValidationError` branch cannot be reached from it.
- Concurrency is not modelled. `self.footnotes` (wagtail_footnotes/blocks.py:30, 46) lives on the block instance, which Wagtail shares across renders and requests. Two renders running at once could see each other's footnotes map. The model renders one page at a time.
- Python's `re` engine in general is not modelled. Only this one pattern is modelled, as a scanner proved equal to its lazy-match semantics.
- ReplaceFootnoteTags: the `hasattr` tests on the page are modelled as `Option` fields. Page attributes other than the two written here are not modelled.
- RichTextBlockWithFootnotes.constructor: the caller's list is not appended to in place. The model builds a new sequence, so aliasing of that list with the caller's is not captured.
- The StreamBlock and StructBlock tests exercise Wagtail's block nesting, not this code, and are not modelled.
