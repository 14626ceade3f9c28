/**
 * Term translation: every entry of a term table is applied, longest key
 * first, as one `re.sub(r'\bKEY\b', VALUE, flags=IGNORECASE)` pass over the
 * text (dataset/pipeline/step4_fix_dataset.py, `translate_text`).
 */
module TermTranslator {
  import opened Wrappers
  import opened Seqs

  /**
   * How the regular-expression engine classifies characters: membership in
   * `\w`, and the case fold under which IGNORECASE compares two characters.
   */
  datatype CharTables = CharTables(isWord: char -> bool, fold: char -> char)

  /** One (source term, replacement) pair; a table keeps its insertion order. */
  type Entry = (string, string)
  type TermTable = seq<Entry>

  /** Every key is non-empty. */
  predicate KeysNonEmpty(table: TermTable) {
    forall e :: e in table ==> |e.0| > 0
  }

  // ---------------------------------------------------------------------------
  // One substitution pass
  // ---------------------------------------------------------------------------

  /** `\b` at position `p`: a word character on exactly one side of `p`. */
  predicate Boundary(t: CharTables, s: string, p: nat)
    requires p <= |s|
  {
    (0 < p && t.isWord(s[p - 1])) != (p < |s| && t.isWord(s[p]))
  }

  /** `a` with every character replaced by its case fold. */
  function Folded(t: CharTables, a: string): (r: string)
    ensures |r| == |a|
    ensures forall k :: 0 <= k < |a| ==> r[k] == t.fold(a[k])
  {
    if a == [] then [] else [t.fold(a[0])] + Folded(t, a[1..])
  }

  /** `a` and `b` are equal character by character under the case fold. */
  predicate FoldEq(t: CharTables, a: string, b: string) {
    Folded(t, a) == Folded(t, b)
  }

  /** `\bKEY\b` matches `s` at position `i`. */
  predicate MatchAt(t: CharTables, s: string, key: string, i: nat) {
    && i + |key| <= |s|
    && Boundary(t, s, i)
    && Boundary(t, s, i + |key|)
    && FoldEq(t, s[i..i + |key|], key)
  }

  /**
   * The substitution pass from position `i` on: at a match the replacement is
   * emitted and scanning resumes after the matched span, otherwise `s[i]` is
   * copied. Boundaries look at the whole of `s`, including what lies before `i`.
   */
  function SubFrom(t: CharTables, s: string, key: string, val: string, i: nat): (r: string)
    requires 0 < |key| && i <= |s|
    decreases |s| - i
  {
    if i == |s| then []
    else if MatchAt(t, s, key, i) then val + SubFrom(t, s, key, val, i + |key|)
    else [s[i]] + SubFrom(t, s, key, val, i + 1)
  }

  /** One whole pass: `re.sub(r'\bKEY\b', val, s, flags=IGNORECASE)`. */
  function Substitute(t: CharTables, s: string, key: string, val: string): string
    requires 0 < |key|
  {
    SubFrom(t, s, key, val, 0)
  }

  // ---------------------------------------------------------------------------
  // The pass the way `re.sub` computes it: search, splice, resume
  // ---------------------------------------------------------------------------

  /** The leftmost match at or after `pos`, if any. */
  function Search(t: CharTables, s: string, key: string, pos: nat): (m: Option<nat>)
    requires 0 < |key| && pos <= |s|
    ensures m.Some? ==> pos <= m.value < |s| && MatchAt(t, s, key, m.value)
    ensures m.Some? ==> forall p :: pos <= p < m.value ==> !MatchAt(t, s, key, p)
    ensures m.None? ==> forall p :: pos <= p ==> !MatchAt(t, s, key, p)
    decreases |s| - pos
  {
    if pos == |s| then None
    else if MatchAt(t, s, key, pos) then Some(pos)
    else Search(t, s, key, pos + 1)
  }

  /** Copy the text up to the next match, emit the replacement, resume after the match. */
  function SubBySearch(t: CharTables, s: string, key: string, val: string, pos: nat): string
    requires 0 < |key| && pos <= |s|
    decreases |s| - pos
  {
    match Search(t, s, key, pos)
    case None => s[pos..]
    case Some(m) => s[pos..m] + val + SubBySearch(t, s, key, val, m + |key|)
  }

  /** Characters between `i` and `j` that start no match are copied unchanged and in order. */
  lemma {:induction false} CopyRun(t: CharTables, s: string, key: string, val: string, i: nat, j: nat)
    requires 0 < |key| && i <= j <= |s|
    requires forall p :: i <= p < j ==> !MatchAt(t, s, key, p)
    ensures SubFrom(t, s, key, val, i) == s[i..j] + SubFrom(t, s, key, val, j)
    decreases j - i
  {
    if i < j {
      CopyRun(t, s, key, val, i + 1, j);
      assert s[i..j] == [s[i]] + s[i + 1..j];
    }
  }

  /** A pass in which the key matches nowhere is the identity. */
  lemma PassWithoutMatchIsIdentity(t: CharTables, s: string, key: string, val: string)
    requires 0 < |key|
    requires forall p :: 0 <= p <= |s| ==> !MatchAt(t, s, key, p)
    ensures Substitute(t, s, key, val) == s
  {
    CopyRun(t, s, key, val, 0, |s|);
    assert s[0..|s|] == s;
  }

  /** The character scan and the search-and-splice loop of `re.sub` produce the same text. */
  lemma {:induction false} ScanEqualsSearch(t: CharTables, s: string, key: string, val: string, pos: nat)
    requires 0 < |key| && pos <= |s|
    ensures SubFrom(t, s, key, val, pos) == SubBySearch(t, s, key, val, pos)
    decreases |s| - pos
  {
    var found := Search(t, s, key, pos);
    if found.None? {
      ScanWithoutMatch(t, s, key, val, pos);
    } else {
      var m := found.value;
      ScanToMatch(t, s, key, val, pos, m);
      SubBySearchStep(t, s, key, val, pos, m);
      ScanEqualsSearch(t, s, key, val, m + |key|);
    }
  }

  /** With no match left, both the scan and the search loop copy the rest of the text. */
  lemma ScanWithoutMatch(t: CharTables, s: string, key: string, val: string, pos: nat)
    requires 0 < |key| && pos <= |s| && Search(t, s, key, pos).None?
    ensures SubFrom(t, s, key, val, pos) == s[pos..]
    ensures SubBySearch(t, s, key, val, pos) == s[pos..]
  {
    CopyRun(t, s, key, val, pos, |s|);
    assert s[pos..|s|] == s[pos..];
  }

  /** The scan copies up to the next match, emits the value and resumes after the match. */
  lemma ScanToMatch(t: CharTables, s: string, key: string, val: string, pos: nat, m: nat)
    requires 0 < |key| && pos <= |s| && Search(t, s, key, pos) == Some(m)
    ensures SubFrom(t, s, key, val, pos) == s[pos..m] + val + SubFrom(t, s, key, val, m + |key|)
  {
    CopyRun(t, s, key, val, pos, m);
    SubFromAtMatch(t, s, key, val, m);
    AppendAssoc(s[pos..m], val, SubFrom(t, s, key, val, m + |key|));
  }

  /** One round of the search-and-splice loop. */
  lemma SubBySearchStep(t: CharTables, s: string, key: string, val: string, pos: nat, m: nat)
    requires 0 < |key| && pos <= |s| && Search(t, s, key, pos) == Some(m)
    ensures SubBySearch(t, s, key, val, pos) == s[pos..m] + val + SubBySearch(t, s, key, val, m + |key|)
  {
  }

  /** The scan at a match emits the value and resumes after the matched span. */
  lemma SubFromAtMatch(t: CharTables, s: string, key: string, val: string, m: nat)
    requires 0 < |key| && m <= |s| && MatchAt(t, s, key, m)
    ensures SubFrom(t, s, key, val, m) == val + SubFrom(t, s, key, val, m + |key|)
  {
  }

  /**
   * The leftmost match is replaced by the value verbatim, everything before it
   * is kept, and the pass carries on right after the matched span.
   */
  lemma LeftmostMatchReplaced(t: CharTables, s: string, key: string, val: string, m: nat)
    requires 0 < |key|
    requires MatchAt(t, s, key, m)
    requires forall p :: 0 <= p < m ==> !MatchAt(t, s, key, p)
    ensures Substitute(t, s, key, val) == s[..m] + val + SubFrom(t, s, key, val, m + |key|)
  {
    CopyRun(t, s, key, val, 0, m);
  }

  /** Matching ignores case: two keys equal under the fold rewrite every text alike. */
  lemma {:induction false} CaseInsensitive(t: CharTables, s: string, key: string, key': string, val: string, i: nat)
    requires 0 < |key| && i <= |s|
    requires FoldEq(t, key, key')
    ensures SubFrom(t, s, key, val, i) == SubFrom(t, s, key', val, i)
    decreases |s| - i
  {
    if i < |s| {
      assert MatchAt(t, s, key, i) <==> MatchAt(t, s, key', i);
      if MatchAt(t, s, key, i) {
        CaseInsensitive(t, s, key, key', val, i + |key|);
      } else {
        CaseInsensitive(t, s, key, key', val, i + 1);
      }
    }
  }

  // ---------------------------------------------------------------------------
  // Application order: stable sort by key length, longest first
  // ---------------------------------------------------------------------------

  /** Key lengths never increase along the sequence. */
  predicate LongestFirst(s: TermTable) {
    forall i, j :: 0 <= i < j < |s| ==> |s[i].0| >= |s[j].0|
  }

  /** The entries whose key has length `n`, in their order in `s`. */
  function WithKeyLength(s: TermTable, n: nat): TermTable {
    if s == [] then []
    else (if |s[0].0| == n then [s[0]] else []) + WithKeyLength(s[1..], n)
  }

  /** Insert `e` in front of the first entry whose key is not longer than its own. */
  function Insert(e: Entry, s: TermTable): (r: TermTable)
    ensures multiset(r) == multiset(s) + multiset{e}
    ensures LongestFirst(s) ==> LongestFirst(r)
    ensures forall n :: WithKeyLength(r, n) == (if |e.0| == n then [e] else []) + WithKeyLength(s, n)
  {
    if s == [] || |s[0].0| <= |e.0| then
      InsertHere(e, s);
      [e] + s
    else
      var r' := Insert(e, s[1..]);
      InsertFurther(e, s, r');
      InsertFurtherOrdered(e, s, r');
      assert s == [s[0]] + s[1..];
      [s[0]] + r'
  }

  /** Insertion at the front keeps the order and prepends `e` to its length class. */
  lemma InsertHere(e: Entry, s: TermTable)
    requires s == [] || |s[0].0| <= |e.0|
    ensures LongestFirst(s) ==> LongestFirst([e] + s)
    ensures forall n :: WithKeyLength([e] + s, n) == (if |e.0| == n then [e] else []) + WithKeyLength(s, n)
  {
    assert ([e] + s)[1..] == s;
  }

  /** Insertion further in: `e` still leads its length class, since the skipped head is longer. */
  lemma InsertFurther(e: Entry, s: TermTable, r': TermTable)
    requires s != [] && |s[0].0| > |e.0|
    requires forall n :: WithKeyLength(r', n) == (if |e.0| == n then [e] else []) + WithKeyLength(s[1..], n)
    ensures forall n :: WithKeyLength([s[0]] + r', n) == (if |e.0| == n then [e] else []) + WithKeyLength(s, n)
  {
    forall n ensures WithKeyLength([s[0]] + r', n) == (if |e.0| == n then [e] else []) + WithKeyLength(s, n) {
      var h0 := if |s[0].0| == n then [s[0]] else [];
      var he := if |e.0| == n then [e] else [];
      var rest := WithKeyLength(s[1..], n);
      assert ([s[0]] + r')[1..] == r';
      assert WithKeyLength([s[0]] + r', n) == h0 + (he + rest);
      assert WithKeyLength(s, n) == h0 + rest;
      assert h0 == [] || he == [];
      assert h0 + (he + rest) == he + (h0 + rest);
    }
  }

  /** Insertion further in keeps the sequence longest-first. */
  lemma InsertFurtherOrdered(e: Entry, s: TermTable, r': TermTable)
    requires s != [] && |s[0].0| > |e.0|
    requires multiset(r') == multiset(s[1..]) + multiset{e}
    requires LongestFirst(s[1..]) ==> LongestFirst(r')
    ensures LongestFirst(s) ==> LongestFirst([s[0]] + r')
  {
    if LongestFirst(s) {
      forall k | 0 <= k < |r'| ensures |r'[k].0| <= |s[0].0| {
        assert r'[k] in multiset(r');
        if r'[k] != e {
          var j :| 0 <= j < |s[1..]| && s[1..][j] == r'[k];
          assert s[j + 1] == r'[k];
        }
      }
    }
  }

  /**
   * Python's `sorted(table, key=len(key), reverse=True)`: longest key first,
   * and entries with keys of equal length keep their table order.
   */
  function SortByKeyLength(table: TermTable): (r: TermTable)
    ensures LongestFirst(r)
    ensures multiset(r) == multiset(table)
    ensures forall n :: WithKeyLength(r, n) == WithKeyLength(table, n)
  {
    if table == [] then []
    else
      assert table == [table[0]] + table[1..];
      Insert(table[0], SortByKeyLength(table[1..]))
  }

  /** No entry of a longest-first sequence has a key longer than its head's. */
  lemma {:induction false} NoLongerThanHead(s: TermTable, n: nat)
    requires LongestFirst(s) && s != [] && n > |s[0].0|
    ensures WithKeyLength(s, n) == []
  {
    if |s| > 1 {
      NoLongerThanHead(s[1..], n);
    }
  }

  /**
   * The order is unique: a longest-first sequence that keeps each key length's
   * entries in table order is exactly `SortByKeyLength(table)`.
   */
  lemma {:induction false} StableOrderIsUnique(a: TermTable, b: TermTable)
    requires LongestFirst(a) && LongestFirst(b)
    requires forall n :: WithKeyLength(a, n) == WithKeyLength(b, n)
    ensures a == b
    decreases |a|
  {
    if a == [] || b == [] {
      EmptyBySomeLength(a, b);
    } else {
      HeadsAgree(a, b);
      forall n ensures WithKeyLength(a[1..], n) == WithKeyLength(b[1..], n) {
        var h := if |a[0].0| == n then [a[0]] else [];
        assert WithKeyLength(a, n) == h + WithKeyLength(a[1..], n);
        assert WithKeyLength(b, n) == h + WithKeyLength(b[1..], n);
        assert WithKeyLength(a[1..], n) == WithKeyLength(a, n)[|h|..];
        assert WithKeyLength(b[1..], n) == WithKeyLength(b, n)[|h|..];
      }
      StableOrderIsUnique(a[1..], b[1..]);
      assert a == [a[0]] + a[1..] && b == [b[0]] + b[1..];
    }
  }

  /** Only the empty sequence has no entry of any key length. */
  lemma EmptyBySomeLength(a: TermTable, b: TermTable)
    requires a == [] || b == []
    requires forall n :: WithKeyLength(a, n) == WithKeyLength(b, n)
    ensures a == b
  {
    if a != [] {
      HeadLengthPresent(a);
    } else if b != [] {
      HeadLengthPresent(b);
    }
  }

  /** A non-empty sequence has an entry of its head's key length. */
  lemma HeadLengthPresent(a: TermTable)
    requires a != []
    ensures WithKeyLength(a, |a[0].0|) != []
  {
  }

  /** Two longest-first sequences with the same per-length entries start with the same entry. */
  lemma HeadsAgree(a: TermTable, b: TermTable)
    requires LongestFirst(a) && LongestFirst(b) && a != [] && b != []
    requires forall n :: WithKeyLength(a, n) == WithKeyLength(b, n)
    ensures a[0] == b[0]
  {
    var la, lb := |a[0].0|, |b[0].0|;
    if la < lb {
      NoLongerThanHead(a, lb);
    } else if lb < la {
      NoLongerThanHead(b, la);
    } else {
      assert WithKeyLength(a, la)[0] == a[0];
      assert WithKeyLength(b, la)[0] == b[0];
    }
  }

  /** Python's stable sort is characterised exactly by the three properties of `SortByKeyLength`. */
  lemma SortIsStableSort(table: TermTable, order: TermTable)
    requires LongestFirst(order)
    requires forall n :: WithKeyLength(order, n) == WithKeyLength(table, n)
    ensures order == SortByKeyLength(table)
  {
    StableOrderIsUnique(order, SortByKeyLength(table));
  }

  // ---------------------------------------------------------------------------
  // The whole translation
  // ---------------------------------------------------------------------------

  /** Fold one substitution pass per entry over the text, in the given order. */
  function ApplyAll(t: CharTables, order: TermTable, s: string): string
    requires KeysNonEmpty(order)
  {
    if order == [] then s
    else ApplyAll(t, order[1..], Substitute(t, s, order[0].0, order[0].1))
  }

  /** Running two orders one after the other is running their concatenation. */
  lemma {:induction false} ApplyAllAppend(t: CharTables, a: TermTable, b: TermTable, s: string)
    requires KeysNonEmpty(a) && KeysNonEmpty(b)
    ensures KeysNonEmpty(a + b)
    ensures ApplyAll(t, a + b, s) == ApplyAll(t, b, ApplyAll(t, a, s))
    decreases |a|
  {
    if a != [] {
      assert (a + b)[0] == a[0] && (a + b)[1..] == a[1..] + b;
      ApplyAllAppend(t, a[1..], b, Substitute(t, s, a[0].0, a[0].1));
    } else {
      assert a + b == b;
    }
  }

  /** `translate_text`: absent and empty text pass through; otherwise every entry, longest key first. */
  function Translate(t: CharTables, table: TermTable, text: Option<string>): (r: Option<string>)
    requires KeysNonEmpty(table)
    ensures r.Some? <==> text.Some?
    ensures text == Some([]) ==> r == text
  {
    match text
    case None => None
    case Some(s) =>
      if s == [] then text
      else
        var order := SortByKeyLength(table);
        assert forall e :: e in order ==> e in multiset(table);
        Some(ApplyAll(t, order, s))
  }

  /** No key occurs anywhere, boundary-delimited: every pass is the identity. */
  predicate NoTermOccurs(t: CharTables, table: TermTable, s: string) {
    forall e, p :: e in table && 0 <= p <= |s| ==> !MatchAt(t, s, e.0, p)
  }

  /** Passes that match nowhere leave the text unchanged. */
  lemma {:induction false} ApplyAllIdentity(t: CharTables, order: TermTable, s: string)
    requires KeysNonEmpty(order) && NoTermOccurs(t, order, s)
    ensures ApplyAll(t, order, s) == s
    decreases |order|
  {
    if order != [] {
      PassWithoutMatchIsIdentity(t, s, order[0].0, order[0].1);
      ApplyAllIdentity(t, order[1..], s);
    }
  }

  /** Text in which no term of the table occurs between word boundaries is returned unchanged. */
  lemma TranslateWithoutTermsIsIdentity(t: CharTables, table: TermTable, s: string)
    requires KeysNonEmpty(table) && NoTermOccurs(t, table, s)
    ensures Translate(t, table, Some(s)) == Some(s)
  {
    if s != [] {
      var order := SortByKeyLength(table);
      assert forall e :: e in order ==> e in multiset(table);
      ApplyAllIdentity(t, order, s);
    }
  }

  /**
   * Any order that is longest-first and keeps the table's order within each
   * key length is the order the passes run in: the translation is that
   * order's passes applied to the text.
   */
  lemma TranslateInStableOrder(t: CharTables, table: TermTable, order: TermTable, s: string)
    requires KeysNonEmpty(table)
    requires LongestFirst(order)
    requires forall n :: WithKeyLength(order, n) == WithKeyLength(table, n)
    ensures KeysNonEmpty(order)
    ensures Translate(t, table, Some(s)) == Some(ApplyAll(t, order, s))
  {
    SortIsStableSort(table, order);
    assert forall e :: e in order ==> e in multiset(table);
    if s == [] {
      ApplyAllIdentity(t, order, s);
    }
  }
}
