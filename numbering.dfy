/**
 * Per-page footnote numbering (`process_footnote`) and the resolution of one
 * marker into an anchor (`replace_tag`), as functions on the page's render
 * state: the ordered `footnotes_list` and the `footnotes_references` mapping
 * from a footnote's uuid to the link ids generated for it.
 */
module Numbering {
  import opened Decimal
  import opened Seqs

  /** A footnote of a page, identified by the string form of its uuid. */
  datatype Footnote = Footnote(uuid: string, text: string)

  /** Every entry is filed under its own footnote's uuid. */
  predicate WellKeyed(fs: map<string, Footnote>) {
    forall u :: u in fs ==> fs[u].uuid == u
  }

  /** `{str(footnote.uuid): footnote for footnote in all}`: a later footnote with the same uuid wins. */
  function ByUuid(all: seq<Footnote>): (fs: map<string, Footnote>)
    ensures WellKeyed(fs)
    ensures fs.Keys == set f | f in all :: f.uuid
    ensures forall u :: u in fs ==> fs[u] in all
  {
    if all == [] then map[]
    else
      var last := all[|all| - 1];
      var rest := ByUuid(all[..|all| - 1]);
      assert all == all[..|all| - 1] + [last];
      rest[last.uuid := last]
  }

  ghost predicate NoDuplicates<T>(s: seq<T>) {
    forall i, j :: 0 <= i < j < |s| ==> s[i] != s[j]
  }

  /** `s.index(x)`: the position of the first occurrence of `x`. */
  function IndexOf<T(==)>(s: seq<T>, x: T): (i: nat)
    requires x in s
    ensures i < |s| && s[i] == x
    ensures forall j :: 0 <= j < i ==> s[j] != x
  {
    if s[0] == x then 0 else 1 + IndexOf(s[1..], x)
  }

  /** The 1-based display index of a listed footnote. */
  function DisplayIndex(list: seq<Footnote>, f: Footnote): (r: nat)
    requires f in list
    ensures 1 <= r <= |list| && list[r - 1] == f
    ensures forall j :: 0 <= j < r - 1 ==> list[j] != f
  {
    IndexOf(list, f) + 1
  }

  /**
   * `process_footnote` on the list: append `f` unless it is already listed,
   * and give its 1-based position. A listed footnote keeps its index; a new
   * one gets the next index.
   */
  function Process(list: seq<Footnote>, f: Footnote): (r: (seq<Footnote>, nat))
    ensures 1 <= r.1 <= |r.0| && r.0[r.1 - 1] == f
    ensures f in list ==> r.0 == list && r.1 == DisplayIndex(list, f)
    ensures f !in list ==> r.0 == list + [f] && r.1 == |list| + 1
  {
    var list' := if f in list then list else list + [f];
    (list', DisplayIndex(list', f))
  }

  const LinkPrefix: string := "footnote-source-"
  const HrefOpen: string := "<a href=\"#footnote-"
  const IdOpen: string := "\" id=\""
  const SupOpen: string := "\"><sup>["
  const AnchorClose: string := "]</sup></a>"

  /** `f"footnote-source-{index}-{k}"`, the html id of the k-th link (0-based) to a footnote. */
  function LinkId(index: nat, k: nat): string {
    LinkPrefix + DecimalString(index) + "-" + DecimalString(k)
  }

  /** The anchor that replaces a resolved marker: the link id between the href part and the label part. */
  function Anchor(index: nat, linkId: string): string {
    HrefPart(index) + linkId + LabelPart(index)
  }

  /** `<a href="#footnote-{index}" id="`. */
  function HrefPart(index: nat): string {
    HrefOpen + DecimalString(index) + IdOpen
  }

  /** `"><sup>[{index}]</sup></a>`. */
  function LabelPart(index: nat): string {
    SupOpen + DecimalString(index) + AnchorClose
  }

  /**
   * A link id is the prefix, the digits of `index`, a dash and the digits
   * of `k`, each reading back as the number written. It holds no double
   * quote, so it stays inside the anchor's `id` attribute.
   */
  lemma LinkIdFormat(index: nat, k: nat)
    ensures var id := LinkId(index, k);
            var n := |LinkPrefix|;
            var d := |DecimalString(index)|;
            && |id| > n + d
            && id[..n] == LinkPrefix
            && IsDigits(id[n..n + d]) && DecimalValue(id[n..n + d]) == index
            && id[n + d] == '-'
            && IsDigits(id[n + d + 1..]) && DecimalValue(id[n + d + 1..]) == k
            && '"' !in id
  {
    var di, dk := DecimalString(index), DecimalString(k);
    var id := LinkId(index, k);
    var n, d := |LinkPrefix|, |di|;
    LinkIdLayout(index, k);
    DecimalRoundTrip(index);
    DecimalRoundTrip(k);
    ConsTail('-', dk);
    DropFirst(id, n + d);
    assert id[n + d] == id[n + d..][0];
    assert '"' !in di && '"' !in dk by {
      assert forall c :: IsDigit(c) ==> c != '"';
    }
    assert '"' !in "-" + dk;
    PrefixQuoteFree();
    NotInConcat('"', LinkPrefix, di, "-" + dk);
  }

  lemma PrefixQuoteFree()
    ensures '"' !in LinkPrefix
  {
  }

  /** The three parts of a link id: the prefix, the digits of `index`, and the dash with the digits of `k`. */
  lemma LinkIdLayout(index: nat, k: nat)
    ensures var id := LinkId(index, k);
            var di, dk := DecimalString(index), DecimalString(k);
            var n := |LinkPrefix|;
            && id == LinkPrefix + di + ("-" + dk)
            && id[..n] == LinkPrefix
            && id[n..n + |di|] == di
            && id[n + |di|..] == "-" + dk
  {
    var di, dk := DecimalString(index), DecimalString(k);
    AppendAssoc(LinkPrefix + di, "-", dk);
    Slot(LinkPrefix, di, "-" + dk);
  }

  /**
   * An anchor is the href part, then the link id as the value of the `id`
   * attribute, then the label part.
   */
  lemma AnchorFormat(index: nat, linkId: string)
    ensures var a := Anchor(index, linkId);
            var o := |HrefPart(index)|;
            && a[..o] == HrefPart(index)
            && a[o..o + |linkId|] == linkId
            && a[o + |linkId|..] == LabelPart(index)
  {
    Slot(HrefPart(index), linkId, LabelPart(index));
  }

  /** `<a href="#footnote-` and the digits of `index`, which read back as `index`, then `" id="`. */
  lemma HrefPartFormat(index: nat)
    ensures var o := HrefPart(index);
            var h := |HrefOpen|;
            var d := |DecimalString(index)|;
            && |o| == h + d + |IdOpen|
            && o[..h] == HrefOpen
            && IsDigits(o[h..h + d]) && DecimalValue(o[h..h + d]) == index
            && o[h + d..] == IdOpen
  {
    DecimalRoundTrip(index);
    Slot(HrefOpen, DecimalString(index), IdOpen);
  }

  /** `"><sup>[` and the digits of `index`, which read back as `index`, then `]</sup></a>`. */
  lemma LabelPartFormat(index: nat)
    ensures var c := LabelPart(index);
            var l := |SupOpen|;
            var d := |DecimalString(index)|;
            && |c| == l + d + |AnchorClose|
            && c[..l] == SupOpen
            && IsDigits(c[l..l + d]) && DecimalValue(c[l..l + d]) == index
            && c[l + d..] == AnchorClose
  {
    DecimalRoundTrip(index);
    Slot(SupOpen, DecimalString(index), AnchorClose);
  }

  /** The ids of the first `n` links to the footnote with display index `index`, in order. */
  function LinkIds(index: nat, n: nat): seq<string> {
    if n == 0 then [] else LinkIds(index, n - 1) + [LinkId(index, n - 1)]
  }

  /** The page attributes `footnotes_list` and `footnotes_references`. */
  datatype RenderState = RenderState(list: seq<Footnote>, references: map<string, seq<string>>)

  /** The state just after both attributes have been created. */
  const Fresh: RenderState := RenderState([], map[])

  /** `footnotes_references[uuid]` read through the defaultdict: `[]` for a uuid not yet referenced. */
  function References(st: RenderState, uuid: string): (r: seq<string>)
    ensures uuid in st.references ==> r == st.references[uuid]
    ensures uuid !in st.references ==> r == []
  {
    if uuid in st.references then st.references[uuid] else []
  }

  /** The replacement text for one marker and the page state after it. */
  datatype Output = Output(text: string, state: RenderState)

  /**
   * `replace_tag` for a marker whose id is `uuid`, with `fs` the page's
   * footnotes by uuid. An unknown uuid (KeyError) gives `""` and leaves the
   * state alone; a known one is numbered, gets the next link id of its
   * footnote, and becomes an anchor carrying both.
   */
  function Resolve(fs: map<string, Footnote>, uuid: string, st: RenderState): (r: Output)
    ensures uuid !in fs ==> r == Output("", st)
    ensures uuid in fs ==>
      && r.state.list == Process(st.list, fs[uuid]).0
      && var index := DisplayIndex(r.state.list, fs[uuid]);
      && var id := LinkId(index, |References(st, uuid)|);
      && r.state.references == st.references[uuid := References(st, uuid) + [id]]
      && r.text == Anchor(index, id)
  {
    if uuid !in fs then Output("", st)
    else
      var (list, index) := Process(st.list, fs[uuid]);
      var previous := References(st, uuid);
      var linkId := LinkId(index, |previous|);
      Output(Anchor(index, linkId), RenderState(list, st.references[uuid := previous + [linkId]]))
  }

  /**
   * What holds of a page's state between markers: the list holds distinct
   * footnotes of the page; exactly the listed footnotes have references;
   * and the k-th link id of a footnote is `footnote-source-{index}-{k}`.
   */
  ghost predicate ValidState(fs: map<string, Footnote>, st: RenderState) {
    && WellKeyed(fs)
    && NoDuplicates(st.list)
    && (forall i :: 0 <= i < |st.list| ==>
          st.list[i].uuid in fs && fs[st.list[i].uuid] == st.list[i] && st.list[i].uuid in st.references)
    && (forall u :: u in st.references ==>
          && u in fs && fs[u] in st.list && |st.references[u]| > 0
          && st.references[u] == LinkIds(DisplayIndex(st.list, fs[u]), |st.references[u]|))
  }

  /** `LinkIds(index, n)` lists the link ids 0 to n-1. */
  lemma {:induction false} LinkIdsAt(index: nat, n: nat, k: nat)
    requires k < n
    ensures |LinkIds(index, n)| == n && LinkIds(index, n)[k] == LinkId(index, k)
  {
    if k < n - 1 {
      LinkIdsAt(index, n - 1, k);
    } else {
      LinkIdsLength(index, n - 1);
    }
  }

  lemma {:induction false} LinkIdsLength(index: nat, n: nat)
    ensures |LinkIds(index, n)| == n
  {
    if n > 0 {
      LinkIdsLength(index, n - 1);
    }
  }

  /** Digit strings split at the first `-`: the parts around it are recovered. */
  lemma SplitAtDash(a: string, b: string, a': string, b': string)
    requires IsDigits(a) && IsDigits(a')
    requires a + "-" + b == a' + "-" + b'
    ensures a == a' && b == b'
  {
    var s, s' := a + "-" + b, a' + "-" + b';
    assert s[|a|] == '-' && s'[|a'|] == '-';
    assert a == s[..|a|] && a' == s'[..|a'|];
    assert b == s[|a| + 1..] && b' == s'[|a'| + 1..];
  }

  /** Two link ids are equal only for the same footnote index and the same link counter. */
  lemma LinkIdInjective(i: nat, k: nat, i': nat, k': nat)
    requires LinkId(i, k) == LinkId(i', k')
    ensures i == i' && k == k'
  {
    var prefix := "footnote-source-";
    var rest, rest' := DecimalString(i) + "-" + DecimalString(k), DecimalString(i') + "-" + DecimalString(k');
    assert LinkId(i, k) == prefix + rest && LinkId(i', k') == prefix + rest';
    assert rest == LinkId(i, k)[|prefix|..] && rest' == LinkId(i', k')[|prefix|..];
    SplitAtDash(DecimalString(i), DecimalString(k), DecimalString(i'), DecimalString(k'));
    DecimalStringInjective(i, i');
    DecimalStringInjective(k, k');
  }

  /** The index of a footnote already listed does not change when the list grows at the end. */
  lemma IndexOfPrefix<T>(a: seq<T>, b: seq<T>, x: T)
    requires a <= b && x in a
    ensures IndexOf(b, x) == IndexOf(a, x)
  {
    assert b[IndexOf(a, x)] == x;
  }

  /** In a duplicate-free list a footnote's display index is its position plus one. */
  lemma DisplayIndexIsPosition(list: seq<Footnote>, i: nat)
    requires NoDuplicates(list) && i < |list|
    ensures DisplayIndex(list, list[i]) == i + 1
  {
  }

  /** The empty state of a freshly created page is valid. */
  lemma FreshIsValid(fs: map<string, Footnote>)
    requires WellKeyed(fs)
    ensures ValidState(fs, Fresh)
  {
  }

  /** Resolving a marker lists each footnote at most once. */
  lemma ResolveKeepsDistinct(fs: map<string, Footnote>, uuid: string, st: RenderState)
    requires ValidState(fs, st) && uuid in fs
    ensures NoDuplicates(Resolve(fs, uuid, st).state.list)
  {
    ProcessKeepsDistinct(st.list, fs[uuid]);
  }

  /** `process_footnote` never lists a footnote twice. */
  lemma ProcessKeepsDistinct(list: seq<Footnote>, f: Footnote)
    requires NoDuplicates(list)
    ensures NoDuplicates(Process(list, f).0)
  {
    var list' := Process(list, f).0;
    forall i, j | 0 <= i < j < |list'| ensures list'[i] != list'[j] {
      if j == |list| {
        assert f !in list && list'[j] == f && list'[i] == list[i];
      }
    }
  }

  /** After resolving a marker every listed footnote is a page footnote and has references. */
  lemma ResolveKeepsListed(fs: map<string, Footnote>, uuid: string, st: RenderState)
    requires ValidState(fs, st) && uuid in fs
    ensures var st' := Resolve(fs, uuid, st).state;
            forall i :: 0 <= i < |st'.list| ==>
              st'.list[i].uuid in fs && fs[st'.list[i].uuid] == st'.list[i] && st'.list[i].uuid in st'.references
  {
    var st' := Resolve(fs, uuid, st).state;
    forall i | 0 <= i < |st'.list|
      ensures st'.list[i].uuid in fs && fs[st'.list[i].uuid] == st'.list[i] && st'.list[i].uuid in st'.references
    {
      if i == |st.list| {
        assert st'.list[i] == fs[uuid];
      } else {
        assert st'.list[i] == st.list[i];
      }
    }
  }

  /** After resolving a marker each footnote's link ids are still its ids 0 to n-1. */
  lemma ResolveKeepsReferences(fs: map<string, Footnote>, uuid: string, st: RenderState)
    requires ValidState(fs, st) && uuid in fs
    ensures var st' := Resolve(fs, uuid, st).state;
            forall u :: u in st'.references ==>
              && u in fs && fs[u] in st'.list && |st'.references[u]| > 0
              && st'.references[u] == LinkIds(DisplayIndex(st'.list, fs[u]), |st'.references[u]|)
  {
    var st' := Resolve(fs, uuid, st).state;
    forall u | u in st'.references
      ensures && u in fs && fs[u] in st'.list && |st'.references[u]| > 0
              && st'.references[u] == LinkIds(DisplayIndex(st'.list, fs[u]), |st'.references[u]|)
    {
      if u == uuid {
        ResolvedReferences(fs, uuid, st);
      } else {
        KeptReference(fs, st, st', u);
      }
    }
  }

  /**
   * Link ids numbered by a footnote's index stay correctly numbered when the
   * list grows behind it and the ids are left alone.
   */
  lemma KeptReference(fs: map<string, Footnote>, st: RenderState, st': RenderState, u: string)
    requires u in st.references && u in fs && fs[u] in st.list
    requires st.references[u] == LinkIds(DisplayIndex(st.list, fs[u]), |st.references[u]|)
    requires st.list <= st'.list && u in st'.references && st'.references[u] == st.references[u]
    ensures fs[u] in st'.list && st'.references[u] == LinkIds(DisplayIndex(st'.list, fs[u]), |st'.references[u]|)
  {
    IndexOfPrefix(st.list, st'.list, fs[u]);
  }

  /** Appending the next link id to a footnote's well-numbered ids keeps them well numbered. */
  lemma NextReference(ids: seq<string>, index: nat)
    requires ids == LinkIds(index, |ids|)
    ensures var ids' := ids + [LinkId(index, |ids|)];
            |ids'| > 0 && ids' == LinkIds(index, |ids'|)
  {
  }

  /** The resolved footnote's link ids continue its numbering by one. */
  lemma ResolvedReferences(fs: map<string, Footnote>, uuid: string, st: RenderState)
    requires ValidState(fs, st) && uuid in fs
    ensures var st' := Resolve(fs, uuid, st).state;
            && fs[uuid] in st'.list && |st'.references[uuid]| > 0
            && st'.references[uuid] == LinkIds(DisplayIndex(st'.list, fs[uuid]), |st'.references[uuid]|)
  {
    var f := fs[uuid];
    var list := Resolve(fs, uuid, st).state.list;
    var ids := References(st, uuid);
    if uuid in st.references {
      assert list == st.list;
    }
    NextReference(ids, DisplayIndex(list, f));
  }

  /**
   * Resolving a marker only adds: listed footnotes keep their display
   * index, and every footnote's earlier link ids stay in front of the new one.
   */
  lemma ResolveExtends(fs: map<string, Footnote>, uuid: string, st: RenderState)
    ensures var st' := Resolve(fs, uuid, st).state;
            && st.list <= st'.list
            && (forall f :: f in st.list ==> f in st'.list && DisplayIndex(st'.list, f) == DisplayIndex(st.list, f))
            && (forall u :: u in st.references ==> u in st'.references && st.references[u] <= st'.references[u])
  {
    var st' := Resolve(fs, uuid, st).state;
    forall f | f in st.list
      ensures f in st'.list && DisplayIndex(st'.list, f) == DisplayIndex(st.list, f)
    {
      IndexOfPrefix(st.list, st'.list, f);
    }
  }

  /** Resolving a marker keeps the page's state valid. */
  lemma ResolvePreservesValid(fs: map<string, Footnote>, uuid: string, st: RenderState)
    requires ValidState(fs, st)
    ensures ValidState(fs, Resolve(fs, uuid, st).state)
  {
    if uuid in fs {
      ResolveKeepsDistinct(fs, uuid, st);
      ResolveKeepsListed(fs, uuid, st);
      ResolveKeepsReferences(fs, uuid, st);
    }
  }

  /** Every link id on a page is generated once: equal ids come from the same footnote and counter. */
  lemma LinkIdsDistinct(fs: map<string, Footnote>, st: RenderState, u: string, k: nat, u': string, k': nat)
    requires ValidState(fs, st)
    requires u in st.references && k < |st.references[u]|
    requires u' in st.references && k' < |st.references[u']|
    requires st.references[u][k] == st.references[u'][k']
    ensures u == u' && k == k'
  {
    var i, i' := DisplayIndex(st.list, fs[u]), DisplayIndex(st.list, fs[u']);
    LinkIdsAt(i, |st.references[u]|, k);
    LinkIdsAt(i', |st.references[u']|, k');
    LinkIdInjective(i, k, i', k');
    assert fs[u] == st.list[i - 1] == fs[u'];
  }

  /**
   * The first two references to a footnote on a fresh page: both show
   * index 1, and their link ids end in -0 and -1.
   */
  lemma FirstTwoReferences(fs: map<string, Footnote>, uuid: string)
    requires uuid in fs
    ensures var first := Resolve(fs, uuid, Fresh);
            var second := Resolve(fs, uuid, first.state);
            && first.text == Anchor(1, "footnote-source-1-0")
            && second.text == Anchor(1, "footnote-source-1-1")
            && second.state.list == [fs[uuid]]
            && second.state.references == map[uuid := ["footnote-source-1-0", "footnote-source-1-1"]]
  {
    var f := fs[uuid];
    assert DecimalString(1) == "1" && DecimalString(0) == "0";
    var id0, id1 := LinkId(1, 0), LinkId(1, 1);
    assert id0 == "footnote-source-1-0";
    assert id1 == "footnote-source-1-1";
    var first := Resolve(fs, uuid, Fresh);
    assert [] + [f] == [f];
    assert Process([], f) == ([f], 1);
    assert References(Fresh, uuid) == [] && [] + [id0] == [id0];
    assert first == Output(Anchor(1, id0), RenderState([f], map[uuid := [id0]]));
    assert Process([f], f) == ([f], 1);
    assert References(first.state, uuid) == [id0] && [id0] + [id1] == [id0, id1];
    assert map[uuid := [id0]][uuid := [id0, id1]] == map[uuid := [id0, id1]];
    assert Resolve(fs, uuid, first.state) == Output(Anchor(1, id1), RenderState([f], map[uuid := [id0, id1]]));
  }
}
