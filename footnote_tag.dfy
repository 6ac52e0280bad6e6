/**
 * The marker pattern `<footnote id="(.*?)">.*?</footnote>` (FIND_FOOTNOTE_TAG)
 * written out as a scanner, and the left-to-right, non-overlapping split of
 * an HTML string into copied characters and matched markers that `re.sub`
 * performs. Python's `.` matches every character except a newline.
 */
module FootnoteTag {
  import opened Wrappers
  import opened Seqs

  const OpenTag: string := "<footnote id=\""
  const IdEnd: string := "\">"
  const CloseTag: string := "</footnote>"

  /** `pat` occurs in `s` starting at index `i`. */
  predicate OccursAt(s: string, pat: string, i: nat) {
    i + |pat| <= |s| && s[i..i + |pat|] == pat
  }

  /** No newline in `s[a..b]`: the span can be matched by `.*`. */
  predicate LineFree(s: string, a: nat, b: nat)
    requires a <= b <= |s|
  {
    forall k :: a <= k < b ==> s[k] != '\n'
  }

  /** The first index at or after `i` where `pat` occurs, if any. */
  function FirstOccurrence(s: string, pat: string, i: nat): (r: Option<nat>)
    decreases |s| - i
    ensures r.Some? ==> i <= r.value && OccursAt(s, pat, r.value)
    ensures r.Some? ==> forall j :: i <= j < r.value ==> !OccursAt(s, pat, j)
    ensures r.None? ==> forall j :: i <= j ==> !OccursAt(s, pat, j)
  {
    if i + |pat| > |s| then None
    else if OccursAt(s, pat, i) then Some(i)
    else FirstOccurrence(s, pat, i + 1)
  }

  /** The first occurrence comes no later than any occurrence at or after the start. */
  lemma FirstIsLeast(s: string, pat: string, i: nat, j: nat)
    requires FirstOccurrence(s, pat, i).Some? && i <= j && OccursAt(s, pat, j)
    ensures FirstOccurrence(s, pat, i).value <= j
  {
  }

  /** A match of the pattern: the captured id (group 1) and the index just past `</footnote>`. */
  datatype Match = Match(id: string, end: nat)

  /**
   * The match of the pattern that starts exactly at `p`, if there is one:
   * the id runs to the first `">`, the label to the first `</footnote>`
   * after it, and neither may hold a newline.
   */
  function MatchAt(s: string, p: nat): (r: Option<Match>)
    ensures r.Some? ==> p + |OpenTag| + |r.value.id| + |IdEnd| + |CloseTag| <= r.value.end <= |s|
    ensures r.Some? ==> r.value.id == s[p + |OpenTag|..p + |OpenTag| + |r.value.id|]
  {
    if !OccursAt(s, OpenTag, p) then None
    else
      var q := p + |OpenTag|;
      match FirstOccurrence(s, IdEnd, q)
      case None => None
      case Some(e) =>
        if !LineFree(s, q, e) then None
        else
          match FirstOccurrence(s, CloseTag, e + |IdEnd|)
          case None => None
          case Some(b) =>
            if !LineFree(s, e + |IdEnd|, b) then None
            else Some(Match(s[q..e], b + |CloseTag|))
  }

  /**
   * Reference semantics of the regular expression at `p`: the id group
   * ends at `e` and the label at `b`, so the text is
   * OpenTag + s[p+14..e] + IdEnd + s[e+2..b] + CloseTag, both spans newline-free.
   */
  ghost predicate Candidate(s: string, p: nat, e: nat, b: nat) {
    && OccursAt(s, OpenTag, p)
    && p + |OpenTag| <= e
    && OccursAt(s, IdEnd, e)
    && e + |IdEnd| <= b
    && OccursAt(s, CloseTag, b)
    && LineFree(s, p + |OpenTag|, e)
    && LineFree(s, e + |IdEnd|, b)
  }

  /**
   * The candidate a backtracking engine picks for two lazy `.*?`: the
   * shortest id, and for it the shortest label.
   */
  ghost predicate LazyMatch(s: string, p: nat, e: nat, b: nat) {
    && Candidate(s, p, e, b)
    && forall e', b' :: Candidate(s, p, e', b') ==> e < e' || (e == e' && b <= b')
  }

  /** There is one lazy match at a position. */
  lemma LazyMatchUnique(s: string, p: nat, e: nat, b: nat, e': nat, b': nat)
    requires LazyMatch(s, p, e, b) && LazyMatch(s, p, e', b')
    ensures e == e' && b == b'
  {
  }

  /** The lazy match at `p` is the match `MatchAt` reports there, with the id it spans. */
  lemma LazyMatchIsMatchAt(s: string, p: nat, e: nat, b: nat)
    requires LazyMatch(s, p, e, b)
    ensures MatchAt(s, p) == Some(Match(s[p + |OpenTag|..e], b + |CloseTag|))
  {
    MatchAtComplete(s, p, e, b);
    var r := MatchAt(s, p).value;
    MatchAtSound(s, p);
    LazyMatchUnique(s, p, e, b, p + |OpenTag| + |r.id|, r.end - |CloseTag|);
    assert r == Match(s[p + |OpenTag|..e], b + |CloseTag|);
  }

  /** A newline-free span stays newline-free when cut short. */
  lemma LineFreePrefix(s: string, a: nat, b: nat, c: nat)
    requires a <= b <= c <= |s|
    ensures LineFree(s, a, c) ==> LineFree(s, a, b)
  {
  }

  /** A label that fits after a longer id also fits after any shorter id that ends in `">`. */
  lemma ShorterIdKeepsLabel(s: string, p: nat, e: nat, e': nat, b': nat)
    requires p + |OpenTag| <= e <= e' && OccursAt(s, IdEnd, e)
    ensures Candidate(s, p, e', b') ==> Candidate(s, p, e, b')
  {
    if Candidate(s, p, e', b') {
      forall k | e + |IdEnd| <= k < b'
        ensures s[k] != '\n'
      {
        if k < e' {
          assert p + |OpenTag| <= k;
        } else if k < e' + |IdEnd| {
          assert s[k] == s[e'..e' + |IdEnd|][k - e'] == IdEnd[k - e'];
        }
      }
    }
  }

  /** A match that `MatchAt` reports is the lazy match of the pattern. */
  lemma MatchAtSound(s: string, p: nat)
    requires MatchAt(s, p).Some?
    ensures LazyMatch(s, p, p + |OpenTag| + |MatchAt(s, p).value.id|, MatchAt(s, p).value.end - |CloseTag|)
  {
    var q: nat := p + |OpenTag|;
    var e := FirstOccurrence(s, IdEnd, q).value;
    var b := FirstOccurrence(s, CloseTag, e + |IdEnd|).value;
    assert MatchAt(s, p).value == Match(s[q..e], b + |CloseTag|);
    assert Candidate(s, p, e, b);
    forall e': nat, b': nat | Candidate(s, p, e', b') ensures e < e' || (e == e' && b <= b') {
      FirstIsLeast(s, IdEnd, q, e');
      if e' == e {
        FirstIsLeast(s, CloseTag, e + |IdEnd|, b');
      }
    }
  }

  /** Wherever the pattern matches at `p`, `MatchAt` reports a match. */
  lemma MatchAtComplete(s: string, p: nat, e': nat, b': nat)
    ensures Candidate(s, p, e', b') ==> MatchAt(s, p).Some?
  {
    if Candidate(s, p, e', b') {
      var q: nat := p + |OpenTag|;
      var e := FirstOccurrence(s, IdEnd, q).value;
      LineFreePrefix(s, q, e, e');
      ShorterIdKeepsLabel(s, p, e, e', b');
      var b := FirstOccurrence(s, CloseTag, e + |IdEnd|).value;
      LineFreePrefix(s, e + |IdEnd|, b, b');
    }
  }

  /** `MatchAt` finds a match exactly when the pattern matches at `p`, and it is the lazy one. */
  lemma MatchAtIsLazyMatch(s: string, p: nat)
    ensures MatchAt(s, p).None? <==> forall e, b :: !Candidate(s, p, e, b)
    ensures MatchAt(s, p).Some? ==>
      LazyMatch(s, p, p + |OpenTag| + |MatchAt(s, p).value.id|, MatchAt(s, p).value.end - |CloseTag|)
  {
    if MatchAt(s, p).Some? {
      MatchAtSound(s, p);
    } else {
      forall e: nat, b: nat ensures !Candidate(s, p, e, b) {
        MatchAtComplete(s, p, e, b);
      }
    }
  }

  /** A piece of the scanned HTML: a character copied as is, or a matched marker with its source text. */
  datatype Piece = Text(c: char) | Marker(uuid: string, source: string)

  /**
   * The scan of `re.sub` from `p`: where the pattern matches, the marker is
   * taken whole and scanning resumes after it; elsewhere one character is
   * copied and scanning resumes at the next one. The scan loses and
   * reorders nothing: its pieces spell out the input.
   */
  function Tokens(s: string, p: nat): (r: seq<Piece>)
    requires p <= |s|
    decreases |s| - p
    ensures Source(r) == s[p..]
  {
    if p == |s| then []
    else
      match MatchAt(s, p)
      case Some(m) =>
        var r := [Marker(m.id, s[p..m.end])] + Tokens(s, m.end);
        ConsTail(Marker(m.id, s[p..m.end]), Tokens(s, m.end));
        SliceSplit(s, p, m.end);
        r
      case None =>
        var r := [Text(s[p])] + Tokens(s, p + 1);
        ConsTail(Text(s[p]), Tokens(s, p + 1));
        SliceSplit(s, p, p + 1);
        assert s[p..p + 1] == [s[p]];
        r
  }

  /** Where a match starts, the scan takes it as one marker piece and resumes after it. */
  lemma TokensAtMatch(s: string, p: nat, id: string, end: nat)
    requires p < |s| && MatchAt(s, p) == Some(Match(id, end))
    ensures end <= |s| && Tokens(s, p) == [Marker(id, s[p..end])] + Tokens(s, end)
  {
  }

  /** Where no match starts, the scan copies one character and resumes at the next. */
  lemma TokensAtText(s: string, p: nat)
    requires p < |s| && MatchAt(s, p).None?
    ensures Tokens(s, p) == [Text(s[p])] + Tokens(s, p + 1)
  {
  }


  /** The original text a sequence of pieces was scanned from. */
  function Source(ts: seq<Piece>): string {
    if ts == [] then []
    else
      (match ts[0] case Text(c) => [c] case Marker(_, src) => src) + Source(ts[1..])
  }

  /** Where the pattern matches nowhere, every piece is a copied character. */
  lemma {:induction false} NoCandidateAllText(s: string, p: nat)
    requires p <= |s|
    requires forall q, e, b :: p <= q ==> !Candidate(s, q, e, b)
    ensures forall i :: 0 <= i < |Tokens(s, p)| ==> Tokens(s, p)[i].Text?
    decreases |s| - p
  {
    if p < |s| {
      MatchAtIsLazyMatch(s, p);
      NoCandidateAllText(s, p + 1);
    }
  }

  /** The marker text for id `uuid` and label `caption`. */
  function MarkerText(uuid: string, caption: string): string {
    OpenTag + uuid + IdEnd + caption + CloseTag
  }

  /** The five parts of a marker text, each at its offset. */
  lemma MarkerParts(uuid: string, caption: string)
    ensures var m := MarkerText(uuid, caption);
            var e := |OpenTag| + |uuid|;
            var b := e + |IdEnd| + |caption|;
            && |m| == b + |CloseTag|
            && m[..|OpenTag|] == OpenTag && m[|OpenTag|..e] == uuid
            && m[e..e + |IdEnd|] == IdEnd && m[e + |IdEnd|..b] == caption
            && m[b..] == CloseTag
  {
    var e := |OpenTag| + |uuid|;
    var b := e + |IdEnd| + |caption|;
    var m1 := OpenTag + uuid;
    var m2 := m1 + IdEnd;
    var m3 := m2 + caption;
    var m := m3 + CloseTag;
    assert m[..|OpenTag|] == m1[..|OpenTag|] == OpenTag;
    assert m[|OpenTag|..e] == m1[|OpenTag|..] == uuid;
    assert m[e..e + |IdEnd|] == m2[e..] == IdEnd;
    assert m[e + |IdEnd|..b] == m3[e + |IdEnd|..] == caption;
    assert m[b..] == CloseTag;
  }

  /** Where the marker text stands in `s`: its three fixed parts, the id and the label. */
  lemma MarkerLayout(s: string, p: nat, uuid: string, caption: string)
    requires p + |MarkerText(uuid, caption)| <= |s| && s[p..p + |MarkerText(uuid, caption)|] == MarkerText(uuid, caption)
    ensures var e := p + |OpenTag| + |uuid|;
            var b := e + |IdEnd| + |caption|;
            && OccursAt(s, OpenTag, p) && OccursAt(s, IdEnd, e) && OccursAt(s, CloseTag, b)
            && s[p + |OpenTag|..e] == uuid && s[e + |IdEnd|..b] == caption
            && b + |CloseTag| == p + |MarkerText(uuid, caption)|
  {
    var m := MarkerText(uuid, caption);
    var e := |OpenTag| + |uuid|;
    var b := e + |IdEnd| + |caption|;
    MarkerParts(uuid, caption);
    SliceEnds(m, |OpenTag|);
    SliceEnds(m, b);
    SliceWithin(s, p, m, 0, |OpenTag|);
    SliceWithin(s, p, m, |OpenTag|, e);
    SliceWithin(s, p, m, e, e + |IdEnd|);
    SliceWithin(s, p, m, e + |IdEnd|, b);
    SliceWithin(s, p, m, b, |m|);
  }

  /** The marker's own text is a candidate match, and no shorter id or label fits. */
  lemma WellFormedMarkerIsLazy(s: string, p: nat, uuid: string, caption: string)
    requires p + |MarkerText(uuid, caption)| <= |s| && s[p..p + |MarkerText(uuid, caption)|] == MarkerText(uuid, caption)
    requires '"' !in uuid && '\n' !in uuid && '<' !in caption && '\n' !in caption
    ensures LazyMatch(s, p, p + |OpenTag| + |uuid|, p + |MarkerText(uuid, caption)| - |CloseTag|)
  {
    var q := p + |OpenTag|;
    var e := q + |uuid|;
    var b := e + |IdEnd| + |caption|;
    MarkerLayout(s, p, uuid, caption);
    forall k | q <= k < e ensures s[k] != '"' && s[k] != '\n' {
      assert s[k] == s[q..e][k - q] == uuid[k - q];
    }
    forall k | e + |IdEnd| <= k < b ensures s[k] != '<' && s[k] != '\n' {
      assert s[k] == s[e + |IdEnd|..b][k - e - |IdEnd|] == caption[k - e - |IdEnd|];
    }
    assert Candidate(s, p, e, b);
    forall e': nat, b': nat | Candidate(s, p, e', b') ensures e < e' || (e == e' && b <= b') {
      assert s[e'] == s[e'..e' + |IdEnd|][0] == '"';
      assert s[b'] == s[b'..b' + |CloseTag|][0] == '<';
    }
  }

  /**
   * A marker whose id holds no `"` and whose label holds no `<`, neither
   * with a newline (a uuid and a short label, as the editor writes them),
   * is matched whole, with the uuid as its id.
   */
  lemma WellFormedMarkerMatches(s: string, p: nat, uuid: string, caption: string)
    requires p + |MarkerText(uuid, caption)| <= |s| && s[p..p + |MarkerText(uuid, caption)|] == MarkerText(uuid, caption)
    requires '"' !in uuid && '\n' !in uuid && '<' !in caption && '\n' !in caption
    ensures MatchAt(s, p) == Some(Match(uuid, p + |MarkerText(uuid, caption)|))
  {
    var e := p + |OpenTag| + |uuid|;
    var b := p + |MarkerText(uuid, caption)| - |CloseTag|;
    WellFormedMarkerIsLazy(s, p, uuid, caption);
    LazyMatchIsMatchAt(s, p, e, b);
    MarkerLayout(s, p, uuid, caption);
  }

  /** The pieces of a run of copied characters. */
  function Texts(t: string): (ts: seq<Piece>)
    ensures |ts| == |t| && forall i :: 0 <= i < |t| ==> ts[i] == Text(t[i])
  {
    if t == [] then [] else [Text(t[0])] + Texts(t[1..])
  }

  /** Where the pattern has no candidate, the scanner finds no match either. */
  lemma NoMatchWhereNoCandidate(s: string, p: nat, q: nat)
    requires forall k, e, b :: p <= k < q ==> !Candidate(s, k, e, b)
    ensures forall k :: p <= k < q ==> MatchAt(s, k).None?
  {
    forall k | p <= k < q
      ensures MatchAt(s, k).None?
    {
      MatchAtIsLazyMatch(s, k);
    }
  }

  /** A stretch where the scanner finds no match is scanned one character at a time. */
  lemma {:induction false} TextRun(s: string, p: nat, q: nat)
    requires p <= q <= |s|
    requires forall k :: p <= k < q ==> MatchAt(s, k).None?
    ensures Tokens(s, p) == Texts(s[p..q]) + Tokens(s, q)
    decreases q - p
  {
    if p < q {
      TokensAtText(s, p);
      TextRun(s, p + 1, q);
      var rest := Texts(s[p + 1..q]);
      SliceFirst(s, p, q);
      AppendAssoc([Text(s[p])], rest, Tokens(s, q));
    } else {
      assert s[p..q] == [];
    }
  }

  lemma {:induction false} SourceOfTexts(t: string)
    ensures Source(Texts(t)) == t
  {
    if t != [] {
      SourceOfTexts(t[1..]);
      assert Texts(t)[1..] == Texts(t[1..]);
    }
  }
}
