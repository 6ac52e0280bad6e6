/**
 * `RichTextBlockWithFootnotes` and the page it renders into. The host's
 * rendering of the rich text is an input string; the page in the template
 * context is `Page?`, null when the context holds no page.
 */
module Blocks {
  import opened Wrappers
  import opened Seqs
  import opened FootnoteTag
  import opened Numbering
  import opened Substitution

  /**
   * The block's feature list after construction: the caller's features
   * (none, or an empty list, count as `[]`) in their order, then
   * `"footnotes"` if it was not among them.
   */
  function NormalisedFeatures(features: Option<seq<string>>): (r: seq<string>)
    ensures var given := features.GetOr([]);
      && given <= r
      && "footnotes" in r
      && |r| == |given| + (if "footnotes" in given then 0 else 1)
      && multiset(r)["footnotes"] == (if "footnotes" in given then multiset(given)["footnotes"] else 1)
      && forall x :: x != "footnotes" ==> multiset(r)[x] == multiset(given)[x]
  {
    var given := features.GetOr([]);
    if "footnotes" in given then given else given + ["footnotes"]
  }

  /** Normalising an already normalised list changes nothing. */
  lemma NormalisedFeaturesIdempotent(features: Option<seq<string>>)
    ensures NormalisedFeatures(Some(NormalisedFeatures(features))) == NormalisedFeatures(features)
  {
  }

  /**
   * A page: its footnotes as stored (`page.footnotes.all()`, never changed
   * here) and the two attributes the rewrite attaches on first use, `None`
   * while the page does not have them.
   */
  class Page {
    const footnotes: seq<Footnote>
    var footnotesList: Option<seq<Footnote>>
    var footnotesReferences: Option<map<string, seq<string>>>

    constructor (footnotes: seq<Footnote>)
      ensures this.footnotes == footnotes
      ensures footnotesList == None && footnotesReferences == None
      ensures Valid()
    {
      this.footnotes := footnotes;
      footnotesList := None;
      footnotesReferences := None;
      new;
      FreshIsValid(ByUuid(footnotes));
    }

    /** The render state, reading a missing attribute as empty. */
    function State(): RenderState
      reads this
    {
      RenderState(footnotesList.GetOr([]), footnotesReferences.GetOr(map[]))
    }

    ghost predicate Valid()
      reads this
    {
      ValidState(ByUuid(footnotes), State())
    }
  }

  class RichTextBlockWithFootnotes {
    var features: seq<string>
    /** The footnotes of the page being rendered, by uuid. */
    var footnotes: map<string, Footnote>

    constructor (features: Option<seq<string>>)
      ensures this.features == NormalisedFeatures(features)
      ensures footnotes == map[]
    {
      var given := if features.None? || features.value == [] then [] else features.value;
      if "footnotes" !in given {
        given := given + ["footnotes"];
      }
      this.features := given;
      footnotes := map[];
    }

    /**
     * `process_footnote`: `None` stands for the KeyError of an unknown uuid,
     * which leaves the list alone; otherwise the footnote is listed if new
     * and its 1-based index returned.
     */
    method ProcessFootnote(footnoteId: string, page: Page) returns (index: Option<nat>)
      requires page.footnotesList.Some?
      modifies page`footnotesList
      ensures footnoteId !in footnotes ==> index == None && page.footnotesList == old(page.footnotesList)
      ensures footnoteId in footnotes ==>
        var (list, i) := Process(old(page.footnotesList.value), footnotes[footnoteId]);
        page.footnotesList == Some(list) && index == Some(i)
    {
      if footnoteId !in footnotes {
        return None;
      }
      var footnote := footnotes[footnoteId];
      if footnote !in page.footnotesList.value {
        page.footnotesList := Some(page.footnotesList.value + [footnote]);
      }
      index := Some(IndexOf(page.footnotesList.value, footnote) + 1);
    }

    /** `replace_tag`: the replacement for a marker with id `footnoteId`, recording the new link id. */
    method ReplaceTag(footnoteId: string, page: Page) returns (replacement: string)
      requires page.footnotesList.Some? && page.footnotesReferences.Some?
      modifies page
      ensures page.footnotesList.Some? && page.footnotesReferences.Some?
      ensures Output(replacement, page.State()) == Resolve(footnotes, footnoteId, old(page.State()))
    {
      var index := ProcessFootnote(footnoteId, page);
      if index.None? {
        return "";
      }
      var references := page.footnotesReferences.value;
      var previous := if footnoteId in references then references[footnoteId] else [];
      var linkId := LinkId(index.value, |previous|);
      page.footnotesReferences := Some(references[footnoteId := previous + [linkId]]);
      replacement := Anchor(index.value, linkId);
    }

    /**
     * `replace_footnote_tags`: without a page the HTML is returned as is;
     * otherwise the attributes are created if missing, the page's footnotes
     * are indexed by uuid, and every marker is replaced left to right.
     */
    method ReplaceFootnoteTags(html: string, page: Page?) returns (out: string)
      modifies this, page
      ensures features == old(features)
      ensures page == null ==> out == html && footnotes == old(footnotes)
      ensures page != null ==>
        && footnotes == ByUuid(page.footnotes)
        && page.footnotesList.Some? && page.footnotesReferences.Some?
        && Output(out, page.State()) == Rewrite(footnotes, html, old(page.State()))
      ensures page != null && old(page.Valid()) ==> page.Valid()
    {
      if page == null {
        return html;
      }
      if page.footnotesList.None? {
        page.footnotesList := Some([]);
      }
      if page.footnotesReferences.None? {
        page.footnotesReferences := Some(map[]);
      }
      footnotes := ByUuid(page.footnotes);
      out := SubstituteTags(html, page);
      if old(page.Valid()) {
        RewritePreservesValid(footnotes, html, old(page.State()));
      }
    }

    /**
     * `FIND_FOOTNOTE_TAG.sub(replace_tag, html)`: scan left to right; at a
     * match, emit its replacement and resume after it, elsewhere copy one
     * character.
     */
    method SubstituteTags(html: string, page: Page) returns (out: string)
      requires page.footnotesList.Some? && page.footnotesReferences.Some?
      modifies page
      ensures page.footnotesList.Some? && page.footnotesReferences.Some?
      ensures Output(out, page.State()) == Rewrite(footnotes, html, old(page.State()))
    {
      ghost var result := Rewrite(footnotes, html, page.State());
      out := "";
      var pos := 0;
      while pos < |html|
        invariant pos <= |html|
        invariant page.footnotesList.Some? && page.footnotesReferences.Some?
        invariant Substitute(footnotes, Tokens(html, pos), page.State()).state == result.state
        invariant out + Substitute(footnotes, Tokens(html, pos), page.State()).text == result.text
        decreases |html| - pos
      {
        ghost var st := page.State();
        SubstituteStep(footnotes, html, pos, st);
        ghost var head := Replace(footnotes, Tokens(html, pos)[0], st);
        ghost var next := match MatchAt(html, pos) case Some(m) => m.end case None => pos + 1;
        ghost var rest := Substitute(footnotes, Tokens(html, next), head.state);
        AppendAssoc(out, head.text, rest.text);
        match MatchAt(html, pos)
        case None =>
          assert head == Output([html[pos]], st);
          out := out + [html[pos]];
          pos := pos + 1;
        case Some(m) =>
          var replacement := ReplaceTag(m.id, page);
          assert Output(replacement, page.State()) == head;
          out := out + replacement;
          pos := m.end;
      }
    }

    /** `render` with a template: the host's output, then the rewrite. */
    method Render(hostHtml: string, page: Page?) returns (out: string)
      modifies this, page
      ensures features == old(features)
      ensures page == null ==> out == hostHtml && footnotes == old(footnotes)
      ensures page != null ==>
        && footnotes == ByUuid(page.footnotes)
        && page.footnotesList.Some? && page.footnotesReferences.Some?
        && Output(out, page.State()) == Rewrite(footnotes, hostHtml, old(page.State()))
      ensures page != null && old(page.Valid()) ==> page.Valid()
    {
      out := ReplaceFootnoteTags(hostHtml, page);
    }

    /** `render_basic`: the host's basic output, then the rewrite. */
    method RenderBasic(hostHtml: string, page: Page?) returns (out: string)
      modifies this, page
      ensures features == old(features)
      ensures page == null ==> out == hostHtml && footnotes == old(footnotes)
      ensures page != null ==>
        && footnotes == ByUuid(page.footnotes)
        && page.footnotesList.Some? && page.footnotesReferences.Some?
        && Output(out, page.State()) == Rewrite(footnotes, hostHtml, old(page.State()))
      ensures page != null && old(page.Valid()) ==> page.Valid()
    {
      out := ReplaceFootnoteTags(hostHtml, page);
    }
  }
}
