/**
 * Label normalisation: the inner text of the first `<label>…</label>` span
 * is looked up in a label map, and every literal copy of that span is
 * rewritten (dataset/pipeline/step4_fix_dataset.py, `fix_output_label`).
 */
module LabelNormalizer {
  import opened Wrappers
  import opened Seqs

  const Open: string := "<label>"
  const Close: string := "</label>"

  /** `pat` occurs in `s` starting at position `i`. */
  predicate OccursAt(s: string, pat: string, i: nat) {
    i + |pat| <= |s| && s[i..i + |pat|] == pat
  }

  /**
   * The lazy `(.*?)</label>` part of the pattern, starting with the inner text
   * at `q`: the first `</label>` reached without crossing a newline (`.` does
   * not match a newline).
   */
  function FindClose(s: string, q: nat): (r: Option<nat>)
    requires q <= |s|
    ensures r.Some? ==> q <= r.value && OccursAt(s, Close, r.value) && '\n' !in s[q..r.value]
    ensures r.Some? ==> forall k :: q <= k < r.value ==> !OccursAt(s, Close, k)
    ensures r.None? ==> forall k :: q <= k <= |s| && OccursAt(s, Close, k) ==> '\n' in s[q..k]
    decreases |s| - q
  {
    if OccursAt(s, Close, q) then Some(q)
    else if q < |s| && s[q] != '\n' then
      var r := FindClose(s, q + 1);
      assert r.Some? ==> s[q..r.value] == [s[q]] + s[q + 1..r.value];
      assert forall k :: q + 1 <= k <= |s| ==> s[q..k] == [s[q]] + s[q + 1..k];
      r
    else
      assert forall k :: q < k <= |s| ==> s[q..k][0] == s[q];
      None
  }

  /**
   * `<label>(.*?)</label>` matches with the tag starting at `p` and the
   * closing tag at `q`; the captured inner text is `s[p + |Open|..q]`.
   */
  predicate TagAt(s: string, p: nat, q: nat) {
    && OccursAt(s, Open, p)
    && p + |Open| <= q
    && OccursAt(s, Close, q)
    && '\n' !in s[p + |Open|..q]
    && forall k :: p + |Open| <= k < q ==> !OccursAt(s, Close, k)
  }

  /** `re.search(r'<label>(.*?)</label>', s)` from start position `p` on: the span of the leftmost match. */
  function SearchLabel(s: string, p: nat): (r: Option<(nat, nat)>)
    requires p <= |s|
    ensures r.Some? ==> p <= r.value.0 && TagAt(s, r.value.0, r.value.1)
    ensures r.Some? ==> forall p', q' :: p <= p' < r.value.0 ==> !TagAt(s, p', q')
    ensures r.None? ==> forall p', q' :: p <= p' ==> !TagAt(s, p', q')
    decreases |s| - p
  {
    if p + |Open| > |s| then None
    else if OccursAt(s, Open, p) && FindClose(s, p + |Open|).Some? then
      Some((p, FindClose(s, p + |Open|).value))
    else
      SearchLabel(s, p + 1)
  }

  /** `s.replace(pat, rep)`: every non-overlapping occurrence, scanning left to right. */
  function ReplaceAll(s: string, pat: string, rep: string): (r: string)
    requires 0 < |pat|
    decreases |s|
  {
    if s == [] then []
    else if pat <= s then rep + ReplaceAll(s[|pat|..], pat, rep)
    else [s[0]] + ReplaceAll(s[1..], pat, rep)
  }

  /** `LABEL_MAPPING.get(captured, captured)`. */
  function Lookup(labels: map<string, string>, captured: string): (r: string)
    ensures captured !in labels ==> r == captured
    ensures captured in labels ==> r == labels[captured]
  {
    if captured in labels then labels[captured] else captured
  }

  /** The whole literal tag around an inner text. */
  function Tag(inner: string): (r: string)
    ensures |r| == |Open| + |inner| + |Close|
  {
    Open + inner + Close
  }

  /** `fix_output_label`. */
  function FixLabel(labels: map<string, string>, output: Option<string>): (r: Option<string>)
    ensures r.Some? <==> output.Some?
    ensures output == Some([]) ==> r == output
  {
    match output
    case None => None
    case Some(s) =>
      if s == [] then output
      else
        match SearchLabel(s, 0)
        case None => output
        case Some((p, q)) =>
          var captured := s[p + |Open|..q];
          Some(ReplaceAll(s, Tag(captured), Tag(Lookup(labels, captured))))
  }

  // ---------------------------------------------------------------------------
  // str.replace
  // ---------------------------------------------------------------------------

  /** `pat` occurs somewhere in `s`. */
  predicate Contains(s: string, pat: string) {
    exists i :: 0 <= i <= |s| && OccursAt(s, pat, i)
  }

  /** An occurrence in a suffix is an occurrence in the whole string, shifted. */
  lemma OccursInSuffix(s: string, pat: string, d: nat, i: nat)
    requires d <= |s|
    ensures OccursAt(s[d..], pat, i) <==> OccursAt(s, pat, d + i)
  {
    if i + |pat| <= |s[d..]| {
      assert s[d..][i..i + |pat|] == s[d + i..d + i + |pat|];
    }
  }

  /** Characters before the first occurrence are copied unchanged and in order. */
  lemma {:induction false} CopyBeforeOccurrence(s: string, pat: string, rep: string, j: nat)
    requires 0 < |pat| && j <= |s|
    requires forall i :: 0 <= i < j ==> !OccursAt(s, pat, i)
    ensures ReplaceAll(s, pat, rep) == s[..j] + ReplaceAll(s[j..], pat, rep)
    decreases j
  {
    if j > 0 {
      var t := s[1..];
      assert !OccursAt(s, pat, 0);
      assert !(pat <= s);
      assert ReplaceAll(s, pat, rep) == [s[0]] + ReplaceAll(t, pat, rep);
      forall i | 0 <= i < j - 1 ensures !OccursAt(t, pat, i) {
        OccursInSuffix(s, pat, 1, i);
      }
      CopyBeforeOccurrence(t, pat, rep, j - 1);
      assert t[j - 1..] == s[j..];
      assert s[..j] == [s[0]] + t[..j - 1];
      var rest := ReplaceAll(s[j..], pat, rep);
      assert [s[0]] + (t[..j - 1] + rest) == [s[0]] + t[..j - 1] + rest;
    }
  }

  /** A string in which `pat` does not occur is returned unchanged. */
  lemma ReplaceWithoutOccurrence(s: string, pat: string, rep: string)
    requires 0 < |pat|
    requires !Contains(s, pat)
    ensures ReplaceAll(s, pat, rep) == s
  {
    CopyBeforeOccurrence(s, pat, rep, |s|);
    assert s[..|s|] == s;
  }

  /**
   * The first occurrence is replaced, the text before it is kept, and the
   * replacement carries on right after the occurrence.
   */
  lemma ReplaceFirstOccurrence(s: string, pat: string, rep: string, j: nat)
    requires 0 < |pat|
    requires OccursAt(s, pat, j)
    requires forall i :: 0 <= i < j ==> !OccursAt(s, pat, i)
    ensures ReplaceAll(s, pat, rep) == s[..j] + rep + ReplaceAll(s[j + |pat|..], pat, rep)
  {
    CopyBeforeOccurrence(s, pat, rep, j);
    var rest := s[j..];
    assert rest[..|pat|] == s[j..j + |pat|];
    ReplaceAtStart(rest, pat, rep);
    assert rest[|pat|..] == s[j + |pat|..];
    AppendAssoc(s[..j], rep, ReplaceAll(s[j + |pat|..], pat, rep));
  }

  /** An occurrence at the very start is replaced and the scan resumes after it. */
  lemma ReplaceAtStart(s: string, pat: string, rep: string)
    requires 0 < |pat| && |pat| <= |s| && s[..|pat|] == pat
    ensures ReplaceAll(s, pat, rep) == rep + ReplaceAll(s[|pat|..], pat, rep)
  {
    assert pat <= s;
  }

  /** Replacing a text by itself changes nothing. */
  lemma {:induction false} ReplaceWithItself(s: string, pat: string)
    requires 0 < |pat|
    ensures ReplaceAll(s, pat, pat) == s
    decreases |s|
  {
    if s == [] {
    } else if pat <= s {
      ReplaceWithItself(s[|pat|..], pat);
      assert s == pat + s[|pat|..];
    } else {
      ReplaceWithItself(s[1..], pat);
      assert s == [s[0]] + s[1..];
    }
  }

  // ---------------------------------------------------------------------------
  // The captured label
  // ---------------------------------------------------------------------------

  /** A tag's closing position is unique: it is the first `</label>` after the opening tag. */
  lemma TagCloseIsUnique(s: string, p: nat, q: nat, q': nat)
    requires TagAt(s, p, q) && TagAt(s, p, q')
    ensures q == q'
  {
  }

  /** The lazy search from the opening tag finds exactly the tag's closing position. */
  lemma FindCloseOfTag(s: string, p: nat, q: nat)
    requires TagAt(s, p, q)
    ensures FindClose(s, p + |Open|) == Some(q)
  {
  }

  /**
   * Conversely, a tag with no opening tag anywhere before it (from `from` on)
   * is the match the search returns.
   */
  lemma {:induction false} SearchFindsFirstTag(s: string, from: nat, p: nat, q: nat)
    requires from <= p && TagAt(s, p, q)
    requires forall i :: from <= i < p ==> !OccursAt(s, Open, i)
    ensures SearchLabel(s, from) == Some((p, q))
    decreases p - from
  {
    if from < p {
      SearchFindsFirstTag(s, from + 1, p, q);
    } else {
      FindCloseOfTag(s, p, q);
    }
  }

  /** The captured inner text holds neither a newline nor a closing tag. */
  lemma CapturedInnerIsShortest(s: string, p: nat, q: nat, inner: string)
    requires SearchLabel(s, 0) == Some((p, q))
    requires inner == s[p + |Open|..q]
    ensures '\n' !in inner
    ensures !Contains(inner, Close)
  {
    assert TagAt(s, p, q);
    var a := p + |Open|;
    forall k | 0 <= k <= |inner| ensures !OccursAt(inner, Close, k) {
      if k + |Close| <= |inner| {
        SliceOfSlice(s, a, q, k, |Close|);
        assert !OccursAt(s, Close, a + k);
      }
    }
  }

  /** The literal tag around the captured text first occurs where the match starts. */
  lemma CapturedTagFirstOccurrence(s: string, p: nat, q: nat, inner: string)
    requires SearchLabel(s, 0) == Some((p, q))
    requires inner == s[p + |Open|..q]
    ensures OccursAt(s, Tag(inner), p)
    ensures forall i :: 0 <= i < p ==> !OccursAt(s, Tag(inner), i)
  {
    var pat := Tag(inner);
    var e := q + |Close|;
    SlicesJoin(s, p, p + |Open|, q);
    SlicesJoin(s, p, q, e);
    assert s[p..e] == pat;
    forall i | 0 <= i < p ensures !OccursAt(s, pat, i) {
      if OccursAt(s, pat, i) {
        EarlierCopyIsATag(s, i, inner);
      }
    }
  }

  /** A literal copy of a newline-free tag is itself where some match could start. */
  lemma EarlierCopyIsATag(s: string, i: nat, inner: string)
    requires OccursAt(s, Tag(inner), i) && '\n' !in inner
    ensures FindClose(s, i + |Open|).Some?
    ensures TagAt(s, i, FindClose(s, i + |Open|).value)
  {
    TagParts(s, i, inner);
    assert OccursAt(s, Close, i + |Open| + |inner|);
  }

  /** A literal copy of a tag is the opening tag, the inner text and the closing tag, in a row. */
  lemma TagParts(s: string, i: nat, inner: string)
    requires OccursAt(s, Tag(inner), i)
    ensures OccursAt(s, Open, i)
    ensures s[i + |Open|..i + |Open| + |inner|] == inner
    ensures OccursAt(s, Close, i + |Open| + |inner|)
  {
    var pat := Tag(inner);
    var c := i + |Open| + |inner|;
    assert s[i..i + |pat|] == Open + inner + Close;
    SliceOfSlice(s, i, i + |pat|, 0, |Open|);
    SliceOfSlice(s, i, i + |pat|, |Open|, |inner|);
    SliceOfSlice(s, i, i + |pat|, |Open| + |inner|, |Close|);
    SliceOfConcat(Open, inner, Close);
    assert (Open + inner + Close)[..|Open|] == Open;
    assert (Open + inner + Close)[|Open| + |inner|..] == Close;
  }

  // ---------------------------------------------------------------------------
  // fix_output_label
  // ---------------------------------------------------------------------------

  /** Absent or empty output, or output without a well-formed tag, is returned unchanged. */
  lemma FixLabelWithoutTag(labels: map<string, string>, output: Option<string>)
    requires output.Some? ==> forall p, q :: !TagAt(output.value, p, q)
    ensures FixLabel(labels, output) == output
  {
  }

  /** Output in which a tag is found is rewritten by replacing that tag with its looked-up form. */
  lemma FixLabelFound(labels: map<string, string>, s: string, p: nat, q: nat, captured: string)
    requires SearchLabel(s, 0) == Some((p, q)) && captured == s[p + |Open|..q]
    ensures FixLabel(labels, Some(s)) == Some(ReplaceAll(s, Tag(captured), Tag(Lookup(labels, captured))))
  {
    assert OccursAt(s, Open, p);
  }

  /** A captured label that the map does not know leaves the output unchanged. */
  lemma FixLabelUnmapped(labels: map<string, string>, s: string, p: nat, q: nat, captured: string)
    requires SearchLabel(s, 0) == Some((p, q))
    requires captured == s[p + |Open|..q] && captured !in labels
    ensures FixLabel(labels, Some(s)) == Some(s)
  {
    FixLabelFound(labels, s, p, q, captured);
    ReplaceWithItself(s, Tag(captured));
  }

  /**
   * A mapped label: the text before the first tag is kept, that tag gets the
   * mapped label, and every later literal copy of it is rewritten as well.
   */
  lemma FixLabelMapped(labels: map<string, string>, s: string, p: nat, q: nat, captured: string)
    requires SearchLabel(s, 0) == Some((p, q))
    requires captured == s[p + |Open|..q] && captured in labels
    ensures FixLabel(labels, Some(s))
         == Some(s[..p] + Tag(labels[captured]) + ReplaceAll(s[q + |Close|..], Tag(captured), Tag(labels[captured])))
  {
    var pat, rep := Tag(captured), Tag(labels[captured]);
    FixLabelFound(labels, s, p, q, captured);
    assert Tag(Lookup(labels, captured)) == rep;
    CapturedTagFirstOccurrence(s, p, q, captured);
    ReplaceFirstOccurrence(s, pat, rep, p);
    var e := q + |Close|;
    assert p + |pat| == e;
    assert ReplaceAll(s, pat, rep) == s[..p] + rep + ReplaceAll(s[e..], pat, rep);
  }
}
