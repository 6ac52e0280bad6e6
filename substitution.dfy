/**
 * `FIND_FOOTNOTE_TAG.sub(replace_tag, html)`: the scanned pieces of the HTML
 * are emitted in order, a copied character as itself and a marker as what
 * `replace_tag` returns for it, with the page state threaded from one
 * marker to the next.
 */
module Substitution {
  import opened Wrappers
  import opened Seqs
  import opened FootnoteTag
  import opened Numbering

  /**
   * What one piece becomes. Only a known marker touches the state: its
   * footnote ends up listed and gains exactly one link id.
   */
  function Replace(fs: map<string, Footnote>, piece: Piece, st: RenderState): (r: Output)
    ensures Extends(st, r.state)
    ensures piece.Text? || piece.uuid !in fs ==> r.state == st
    ensures piece.Marker? && piece.uuid in fs ==>
      && fs[piece.uuid] in r.state.list
      && |References(r.state, piece.uuid)| == |References(st, piece.uuid)| + 1
  {
    match piece
    case Text(c) => Output([c], st)
    case Marker(uuid, _) =>
      ResolveExtends(fs, uuid, st);
      Resolve(fs, uuid, st)
  }

  /** The pieces replaced left to right; the state is only ever added to. */
  function Substitute(fs: map<string, Footnote>, ts: seq<Piece>, st: RenderState): (r: Output)
    ensures Extends(st, r.state)
  {
    if ts == [] then Output("", st)
    else
      var first := Replace(fs, ts[0], st);
      var rest := Substitute(fs, ts[1..], first.state);
      ExtendsTransitive(st, first.state, rest.state);
      Output(first.text + rest.text, rest.state)
  }

  /** The rewrite of a whole HTML fragment against the page state `st`; it only adds to the state. */
  function Rewrite(fs: map<string, Footnote>, html: string, st: RenderState): (r: Output)
    ensures Extends(st, r.state)
  {
    Substitute(fs, Tokens(html, 0), st)
  }

  /** The later state keeps everything of the earlier one: list entries stay put and link ids are only appended. */
  ghost predicate Extends(st: RenderState, st': RenderState) {
    && st.list <= st'.list
    && forall u :: u in st.references ==> u in st'.references && st.references[u] <= st'.references[u]
  }

  lemma ExtendsTransitive(a: RenderState, b: RenderState, c: RenderState)
    requires Extends(a, b) && Extends(b, c)
    ensures Extends(a, c)
  {
    forall u | u in a.references
      ensures u in c.references && a.references[u] <= c.references[u]
    {
      assert a.references[u] <= b.references[u] <= c.references[u];
    }
  }

  /** One step of the scan: the first piece from `p`, replaced, followed by the rest. */
  lemma SubstituteStep(fs: map<string, Footnote>, s: string, p: nat, st: RenderState)
    requires p < |s|
    ensures var ts := Tokens(s, p);
            var next := match MatchAt(s, p) case Some(m) => m.end case None => p + 1;
            var head := Replace(fs, ts[0], st);
            && next <= |s|
            && ts[0] == (match MatchAt(s, p) case Some(m) => Marker(m.id, s[p..m.end]) case None => Text(s[p]))
            && Substitute(fs, ts, st) == Output(head.text + Substitute(fs, Tokens(s, next), head.state).text,
                                                Substitute(fs, Tokens(s, next), head.state).state)
  {
    var ts := Tokens(s, p);
    match MatchAt(s, p)
    case Some(m) =>
      assert ts[1..] == Tokens(s, m.end);
    case None =>
      assert ts[1..] == Tokens(s, p + 1);
  }

  /** Pieces with no marker come out as the text they were scanned from, and the state is untouched. */
  lemma {:induction false} SubstituteText(fs: map<string, Footnote>, ts: seq<Piece>, st: RenderState)
    requires forall i :: 0 <= i < |ts| ==> ts[i].Text?
    ensures Substitute(fs, ts, st) == Output(Source(ts), st)
  {
    if ts != [] {
      SubstituteText(fs, ts[1..], st);
    }
  }

  /** HTML in which the pattern matches nowhere is returned unchanged, and the page state with it. */
  lemma RewriteIdentity(fs: map<string, Footnote>, html: string, st: RenderState)
    requires forall q, e, b :: !Candidate(html, q, e, b)
    ensures Rewrite(fs, html, st) == Output(html, st)
  {
    NoCandidateAllText(html, 0);
    SubstituteText(fs, Tokens(html, 0), st);
  }

  /** Rewriting two runs of pieces one after the other is rewriting them together. */
  lemma {:induction false} SubstituteAppend(fs: map<string, Footnote>, a: seq<Piece>, b: seq<Piece>, st: RenderState)
    ensures var first := Substitute(fs, a, st);
            var second := Substitute(fs, b, first.state);
            Substitute(fs, a + b, st) == Output(first.text + second.text, second.state)
  {
    if a == [] {
      assert a + b == b;
    } else {
      var ab := a + b;
      var head := Replace(fs, a[0], st);
      assert ab[0] == a[0] && ab[1..] == a[1..] + b;
      SubstituteAppend(fs, a[1..], b, head.state);
      var tail := Substitute(fs, a[1..], head.state);
      var second := Substitute(fs, b, tail.state);
      assert Substitute(fs, a, st) == Output(head.text + tail.text, tail.state);
      assert Substitute(fs, ab[1..], head.state) == Output(tail.text + second.text, second.state);
      assert Substitute(fs, ab, st) == Output(head.text + (tail.text + second.text), second.state);
      AppendAssoc(head.text, tail.text, second.text);
    }
  }

  /** Rewriting keeps the page state valid. */
  lemma {:induction false} SubstitutePreservesValid(fs: map<string, Footnote>, ts: seq<Piece>, st: RenderState)
    requires ValidState(fs, st)
    ensures ValidState(fs, Substitute(fs, ts, st).state)
  {
    if ts != [] {
      var next := Replace(fs, ts[0], st).state;
      if ts[0].Marker? {
        ResolvePreservesValid(fs, ts[0].uuid, st);
      }
      SubstitutePreservesValid(fs, ts[1..], next);
    }
  }

  lemma RewritePreservesValid(fs: map<string, Footnote>, html: string, st: RenderState)
    requires ValidState(fs, st)
    ensures ValidState(fs, Rewrite(fs, html, st).state)
  {
    SubstitutePreservesValid(fs, Tokens(html, 0), st);
  }

  /**
   * A second block rendered on the same page continues where the first
   * stopped: footnotes already numbered keep their index, their earlier
   * link ids stay, and new footnotes are numbered after them.
   */
  lemma RewriteContinuesNumbering(fs: map<string, Footnote>, html: string, st: RenderState, f: Footnote)
    requires f in st.list
    ensures var st' := Rewrite(fs, html, st).state;
            && Extends(st, st')
            && f in st'.list && DisplayIndex(st'.list, f) == DisplayIndex(st.list, f)
  {
    var st' := Rewrite(fs, html, st).state;
    IndexOfPrefix(st.list, st'.list, f);
  }

  /** Where nothing matches before `p`, the scan up to `p` is plain text. */
  lemma TokensBefore(s: string, p: nat)
    requires p <= |s|
    requires forall k: nat, e: nat, b: nat :: k < p ==> !Candidate(s, k, e, b)
    ensures Tokens(s, 0) == Texts(s[..p]) + Tokens(s, p)
  {
    NoMatchWhereNoCandidate(s, 0, p);
    TextRun(s, 0, p);
    SliceEnds(s, p);
  }

  /** Where nothing matches from `q` on, the rest of the scan is plain text. */
  lemma TokensAfter(s: string, q: nat)
    requires q <= |s|
    requires forall k: nat, e: nat, b: nat :: q <= k ==> !Candidate(s, k, e, b)
    ensures Tokens(s, q) == Texts(s[q..])
  {
    NoMatchWhereNoCandidate(s, q, |s|);
    TextRun(s, q, |s|);
    SliceEnds(s, q);
  }

  /** The scan of a fragment in which the pattern matches once, at `p`. */
  lemma TokensOfOneMarker(s: string, p: nat, m: Match)
    requires MatchAt(s, p) == Some(m)
    requires forall k: nat, e: nat, b: nat :: k < p || m.end <= k ==> !Candidate(s, k, e, b)
    ensures p < m.end <= |s|
    ensures Tokens(s, 0) == Texts(s[..p]) + ([Marker(m.id, s[p..m.end])] + Texts(s[m.end..]))
  {
    TokensBefore(s, p);
    TokensAtMatch(s, p, m.id, m.end);
    TokensAfter(s, m.end);
  }

  /** Plain text in front of some pieces is copied and leaves the state as it was. */
  lemma SubstituteAfterText(fs: map<string, Footnote>, before: string, ts: seq<Piece>, st: RenderState)
    ensures var rest := Substitute(fs, ts, st);
            Substitute(fs, Texts(before) + ts, st) == Output(before + rest.text, rest.state)
  {
    SubstituteAppend(fs, Texts(before), ts, st);
    SubstituteText(fs, Texts(before), st);
    SourceOfTexts(before);
  }

  /** A marker followed by plain text: the marker is resolved and the text copied. */
  lemma SubstituteMarkerThenText(fs: map<string, Footnote>, id: string, source: string, after: string, st: RenderState)
    ensures var r := Resolve(fs, id, st);
            Substitute(fs, [Marker(id, source)] + Texts(after), st) == Output(r.text + after, r.state)
  {
    var ts := [Marker(id, source)] + Texts(after);
    var r := Resolve(fs, id, st);
    assert ts[0] == Marker(id, source) && ts[1..] == Texts(after);
    SubstituteText(fs, Texts(after), r.state);
    SourceOfTexts(after);
  }

  /** Text, one marker, text: the texts are kept and the marker is resolved. */
  lemma SubstituteAroundMarker(fs: map<string, Footnote>, before: string, id: string, source: string, after: string, st: RenderState)
    ensures var r := Resolve(fs, id, st);
            Substitute(fs, Texts(before) + ([Marker(id, source)] + Texts(after)), st)
              == Output(before + r.text + after, r.state)
  {
    var r := Resolve(fs, id, st);
    SubstituteMarkerThenText(fs, id, source, after, st);
    SubstituteAfterText(fs, before, [Marker(id, source)] + Texts(after), st);
    AppendAssoc(before, r.text, after);
  }

  /**
   * A fragment in which the pattern matches once: the text before and
   * after the marker is kept as it is and the marker becomes what
   * `replace_tag` gives for its id. `WellFormedMarkerMatches` says when a
   * marker is matched whole.
   */
  lemma RewriteOneMarker(fs: map<string, Footnote>, s: string, p: nat, m: Match, st: RenderState)
    requires MatchAt(s, p) == Some(m)
    requires forall k: nat, e: nat, b: nat :: k < p || m.end <= k ==> !Candidate(s, k, e, b)
    ensures var r := Resolve(fs, m.id, st);
            Rewrite(fs, s, st) == Output(s[..p] + r.text + s[m.end..], r.state)
  {
    TokensOfOneMarker(s, p, m);
    SubstituteAroundMarker(fs, s[..p], m.id, s[p..m.end], s[m.end..], st);
  }
}
