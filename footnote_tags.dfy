/**
 * The template filter `get_reference_ids`: the link ids recorded for one
 * footnote, read from the page's `footnotes_references` attribute, which
 * `value` has only once a rewrite has run on it.
 */
module FootnoteTags {
  import opened Wrappers
  import opened Numbering

  /**
   * `value.footnotes_references.get(footnote_uuid, [])` when `value` has the
   * attribute (`references` is `Some`), `[]` otherwise. Nothing is stored:
   * `.get` does not insert into the defaultdict.
   */
  function GetReferenceIds(references: Option<map<string, seq<string>>>, footnoteUuid: string): (ids: seq<string>)
    ensures references.Some? && footnoteUuid in references.value ==> ids == references.value[footnoteUuid]
    ensures references.None? || footnoteUuid !in references.value ==> ids == []
  {
    match references
    case None => []
    case Some(m) => if footnoteUuid in m then m[footnoteUuid] else []
  }

  /**
   * On a page in a valid state the filter gives a non-empty list exactly for
   * the footnotes that were referenced, and the k-th id it gives is
   * `footnote-source-{index}-{k}`, with the footnote's display index.
   */
  lemma ReferenceIdsOfPage(fs: map<string, Footnote>, st: RenderState, uuid: string)
    requires ValidState(fs, st)
    ensures var ids := GetReferenceIds(Some(st.references), uuid);
      && (|ids| > 0 <==> uuid in fs && fs[uuid] in st.list)
      && (|ids| > 0 ==> forall k :: 0 <= k < |ids| ==> ids[k] == LinkId(DisplayIndex(st.list, fs[uuid]), k))
  {
    var ids := GetReferenceIds(Some(st.references), uuid);
    if uuid in fs && fs[uuid] in st.list {
      var i := IndexOf(st.list, fs[uuid]);
      assert st.list[i].uuid == uuid;
    }
    if |ids| > 0 {
      forall k | 0 <= k < |ids|
        ensures ids[k] == LinkId(DisplayIndex(st.list, fs[uuid]), k)
      {
        LinkIdsAt(DisplayIndex(st.list, fs[uuid]), |ids|, k);
      }
    }
  }
}
