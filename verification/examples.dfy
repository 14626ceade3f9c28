/**
 * Worked examples of `translate_text` and `fix_output_label`: longest key
 * first, word boundaries, case-insensitive matching, label passthrough and
 * substitution, and one split processed end to end.
 */
module Examples {
  import opened Wrappers
  import opened Seqs
  import opened TermTranslator
  import opened LabelNormalizer
  import opened DatasetProcessor

  /**
   * `\w` restricted to ASCII and the Hangul syllables block; on text made of
   * those characters it agrees with the Unicode classification Python uses.
   */
  predicate AsciiHangulWord(c: char) {
    || 'a' <= c <= 'z' || 'A' <= c <= 'Z' || '0' <= c <= '9' || c == '_'
    || '가' <= c <= '힣'
  }

  /** Lower-casing of ASCII letters; Hangul has no case. */
  function AsciiFold(c: char): char {
    if 'A' <= c <= 'Z' then (c as int + 32) as char else c
  }

  const Tables: CharTables := CharTables(AsciiHangulWord, AsciiFold)

  /** The compound term is rewritten as a whole before its shorter component is tried. */
  lemma LongestKeyFirst()
    ensures Translate(Tables, [("cancer", "암"), ("skin cancer", "피부암")], Some("skin cancer risk"))
         == Some("피부암 risk")
  {
    var s, table := "skin cancer risk", [("cancer", "암"), ("skin cancer", "피부암")];
    var order := [("skin cancer", "피부암"), ("cancer", "암")];
    SortLongestFirst();
    SkinCancerPass(s);
    CancerAfterCompound();
    assert ApplyAll(Tables, order, s) == ApplyAll(Tables, order[1..], "피부암 risk");
    assert ApplyAll(Tables, order[1..], "피부암 risk") == ApplyAll(Tables, [], "피부암 risk");
  }

  lemma SortLongestFirst()
    ensures SortByKeyLength([("cancer", "암"), ("skin cancer", "피부암")])
         == [("skin cancer", "피부암"), ("cancer", "암")]
  {
    var table := [("cancer", "암"), ("skin cancer", "피부암")];
    assert table[1..] == [("skin cancer", "피부암")];
    assert SortByKeyLength(table[1..]) == [("skin cancer", "피부암")];
  }

  lemma CancerAfterCompound()
    ensures Substitute(Tables, "피부암 risk", "cancer", "암") == "피부암 risk"
  {
    PassWithoutMatchIsIdentity(Tables, "피부암 risk", "cancer", "암");
  }

  lemma SkinCancerPass(s: string)
    requires s == "skin cancer risk"
    ensures Substitute(Tables, s, "skin cancer", "피부암") == "피부암 risk"
  {
    assert s == "skin cancer" + " risk";
    assert MatchAt(Tables, s, "skin cancer", 0);
    PassAtStart(Tables, s, "skin cancer", "피부암", "skin cancer", " risk");
  }

  /** `rash` inside `crash` is not delimited by word boundaries. */
  lemma WordBoundaryRespected()
    ensures Translate(Tables, [("rash", "발진")], Some("crash course")) == Some("crash course")
  {
    var s, table := "crash course", [("rash", "발진")];
    assert SortByKeyLength(table) == table;
    PassWithoutMatchIsIdentity(Tables, s, "rash", "발진");
    assert ApplyAll(Tables, table, s) == ApplyAll(Tables, [], Substitute(Tables, s, "rash", "발진"));
  }

  /** The key matches whatever its case; the replacement keeps its own. */
  lemma CaseInsensitiveMatch()
    ensures Translate(Tables, [("Eczema", "습진")], Some("eczema flare")) == Some("습진 flare")
  {
    var s, table := "eczema flare", [("Eczema", "습진")];
    assert SortByKeyLength(table) == table;
    EczemaPass(s);
    assert ApplyAll(Tables, table, s) == ApplyAll(Tables, [], Substitute(Tables, s, "Eczema", "습진"));
  }

  lemma EczemaMatches(s: string)
    requires s == "eczema flare"
    ensures MatchAt(Tables, s, "Eczema", 0)
  {
    assert s[0..6] == "eczema";
    assert Folded(Tables, "eczema") == Folded(Tables, "Eczema");
  }

  lemma EczemaPass(s: string)
    requires s == "eczema flare"
    ensures Substitute(Tables, s, "Eczema", "습진") == "습진 flare"
  {
    assert s == "eczema" + " flare";
    EczemaMatches(s);
    forall p | 6 <= p < 12 ensures !MatchAt(Tables, s, "Eczema", p) {
      if p == 6 {
        FirstCharDiffers(Tables, s, "Eczema", 6);
      }
    }
    PassAtStart(Tables, s, "Eczema", "습진", "eczema", " flare");
  }

  /** A pass over text whose only match is the key-long head replaces the head and keeps the rest. */
  lemma PassAtStart(t: CharTables, s: string, key: string, val: string, head: string, rest: string)
    requires 0 < |key| && s == head + rest && |head| == |key|
    requires MatchAt(t, s, key, 0)
    requires forall p :: |key| <= p < |s| ==> !MatchAt(t, s, key, p)
    ensures Substitute(t, s, key, val) == val + rest
  {
    LeftmostMatchReplaced(t, s, key, val, 0);
    CopyRun(t, s, key, val, |key|, |s|);
    assert s[|key|..|s|] == rest;
    assert s[..0] == [];
  }

  /** A key does not match where the text's character, folded, differs from the key's first. */
  lemma FirstCharDiffers(t: CharTables, s: string, key: string, p: nat)
    requires 0 < |key| && p < |s| && t.fold(s[p]) != t.fold(key[0])
    ensures !MatchAt(t, s, key, p)
  {
    if p + |key| <= |s| {
      assert Folded(t, s[p..p + |key|])[0] != Folded(t, key)[0];
    }
  }

  /** A label missing from the map leaves the text as it is. */
  lemma UnmappedLabelPassesThrough()
    ensures FixLabel(map["A" := "X"], Some("<label>B</label> text")) == Some("<label>B</label> text")
  {
    UnmappedLabelPassesThroughIn("<label>B</label> text");
  }

  lemma UnmappedLabelPassesThroughIn(s: string)
    requires s == "<label>B</label> text"
    ensures FixLabel(map["A" := "X"], Some(s)) == Some(s)
  {
    UnmappedLabelParts();
    TagAfterPlainText([], "B", " text");
    FixLabelUnmapped(map["A" := "X"], s, 0, 8, "B");
  }

  /** A mapped label is replaced inside its tag. */
  lemma MappedLabelReplaced()
    ensures FixLabel(map["A" := "X"], Some("pre <label>A</label> post")) == Some("pre <label>X</label> post")
  {
    MappedLabelReplacedIn("pre <label>A</label> post", map["A" := "X"]);
  }

  lemma MappedLabelReplacedIn(s: string, labels: map<string, string>)
    requires s == "pre <label>A</label> post" && labels == map["A" := "X"]
    ensures FixLabel(labels, Some(s)) == Some("pre <label>X</label> post")
  {
    MappedLabelParts();
    TagAfterPlainText("pre ", "A", " post");
    FixLabelMapped(labels, s, 4, 12, "A");
    ReplaceWithoutOccurrence(" post", Tag("A"), Tag("X"));
    Assembled();
  }

  lemma UnmappedLabelParts()
    ensures "<label>B</label> text" == [] + Tag("B") + " text"
  {
    assert Tag("B") == "<label>B</label>";
  }

  lemma MappedLabelParts()
    ensures "pre <label>A</label> post" == "pre " + Tag("A") + " post"
  {
    assert Tag("A") == "<label>A</label>";
  }

  lemma Assembled()
    ensures "pre " + Tag("X") + " post" == "pre <label>X</label> post"
  {
    assert Tag("X") == "<label>X</label>";
  }

  /**
   * In `pre + Tag(inner) + post`, with no `<` before the tag or inside it,
   * the tag is the first match and its inner text is what is captured.
   */
  lemma TagAfterPlainText(pre: string, inner: string, post: string)
    requires '<' !in pre && '<' !in inner && '\n' !in inner
    ensures var s, p := pre + Tag(inner) + post, |pre|;
      && SearchLabel(s, 0) == Some((p, p + |Open| + |inner|))
      && s[p + |Open|..p + |Open| + |inner|] == inner
      && s[..p] == pre
      && s[p + |Tag(inner)|..] == post
  {
    var s := pre + Tag(inner) + post;
    var p, q := |pre|, |pre| + |Open| + |inner|;
    SliceOfConcat(pre, Tag(inner), post);
    TagParts(s, p, inner);
    forall k | p + |Open| <= k < q ensures !OccursAt(s, Close, k) {
      assert s[k] == s[p + |Open|..q][k - p - |Open|];
      NoCloseTagAt(s, k);
    }
    forall i | 0 <= i < p ensures !OccursAt(s, Open, i) {
      assert s[i] == pre[i];
      NoOpenTagAt(s, i);
    }
    assert TagAt(s, p, q);
    SearchFindsFirstTag(s, 0, p, q);
    AppendAssoc(pre, Tag(inner), post);
  }

  lemma NoOpenTagAt(s: string, i: nat)
    requires i + |Open| <= |s| && s[i] != '<'
    ensures !OccursAt(s, Open, i)
  {
    assert s[i..i + |Open|][0] == s[i];
  }

  lemma NoCloseTagAt(s: string, i: nat)
    requires i < |s| && s[i] != '<'
    ensures !OccursAt(s, Close, i)
  {
    if i + |Close| <= |s| {
      assert s[i..i + |Close|][0] == s[i];
    }
  }

  // ---------------------------------------------------------------------------
  // One split end to end
  // ---------------------------------------------------------------------------

  /** Text without a `<` holds no tag. */
  lemma NoAngleNoTag(s: string)
    requires '<' !in s
    ensures forall p, q :: !TagAt(s, p, q)
  {
    forall p: nat, q: nat ensures !TagAt(s, p, q) {
      if p + |Open| <= |s| {
        NoOpenTagAt(s, p);
      }
    }
  }

  /** A key whose first character, folded, appears nowhere in the text matches nowhere. */
  lemma FirstCharAbsent(t: CharTables, s: string, key: string)
    requires 0 < |key|
    requires forall k :: 0 <= k < |s| ==> t.fold(s[k]) != t.fold(key[0])
    ensures forall p :: 0 <= p <= |s| ==> !MatchAt(t, s, key, p)
  {
    forall p | 0 <= p <= |s| ensures !MatchAt(t, s, key, p) {
      if p + |key| <= |s| {
        assert Folded(t, s[p..p + |key|])[0] != Folded(t, key)[0];
      }
    }
  }

  const Scenario: Config := Config(Tables, [("skin cancer", "피부암")], map["old" := "new"])

  lemma FirstRecord()
    ensures Transform(Scenario, Some("skin cancer found")) == Some("피부암 found")
  {
    var s := "skin cancer found";
    var once := "피부암 found";
    FoundPass(s);
    assert Translate(Tables, Scenario.terms, Some(s)) == Some(once) by {
      assert SortByKeyLength(Scenario.terms) == Scenario.terms;
      assert ApplyAll(Tables, Scenario.terms, s) == ApplyAll(Tables, [], once);
    }
    assert '<' !in once;
    NoAngleNoTag(once);
    FixLabelWithoutTag(Scenario.labels, Some(once));
  }

  lemma FoundPass(s: string)
    requires s == "skin cancer found"
    ensures Substitute(Tables, s, "skin cancer", "피부암") == "피부암 found"
  {
    assert s == "skin cancer" + " found";
    assert MatchAt(Tables, s, "skin cancer", 0);
    PassAtStart(Tables, s, "skin cancer", "피부암", "skin cancer", " found");
  }

  lemma ThirdRecord()
    ensures Transform(Scenario, Some("<label>old</label> ok")) == Some("<label>new</label> ok")
  {
    TaggedTextUntranslated("<label>old</label> ok");
    OldLabelRewritten("<label>old</label> ok", Scenario.labels);
  }

  lemma TaggedTextUntranslated(s: string)
    requires s == "<label>old</label> ok"
    ensures Translate(Tables, Scenario.terms, Some(s)) == Some(s)
  {
    assert SortByKeyLength(Scenario.terms) == Scenario.terms;
    FirstCharAbsent(Tables, s, "skin cancer");
    PassWithoutMatchIsIdentity(Tables, s, "skin cancer", "피부암");
    assert ApplyAll(Tables, Scenario.terms, s) == ApplyAll(Tables, [], s);
  }

  lemma OldLabelRewritten(s: string, labels: map<string, string>)
    requires s == "<label>old</label> ok" && labels == map["old" := "new"]
    ensures FixLabel(labels, Some(s)) == Some("<label>new</label> ok")
  {
    OldLabelParts();
    TagAfterPlainText([], "old", " ok");
    FixLabelMapped(labels, s, 0, 10, "old");
    ReplaceWithoutOccurrence(" ok", Tag("old"), Tag("new"));
    NewLabelAssembled();
  }

  lemma OldLabelParts()
    ensures "<label>old</label> ok" == [] + Tag("old") + " ok"
  {
    assert Tag("old") == "<label>old</label>";
  }

  lemma NewLabelAssembled()
    ensures [] + Tag("new") + " ok" == "<label>new</label> ok"
  {
    assert Tag("new") == "<label>new</label>";
  }

  /** A three-record split: two records change, the absent one is kept. */
  lemma SplitEndToEnd()
    ensures var before := [Some("skin cancer found"), None, Some("<label>old</label> ok")];
      var after := [Some("피부암 found"), None, Some("<label>new</label> ok")];
      && (forall i :: 0 <= i < 3 ==> Transform(Scenario, before[i]) == after[i])
      && |ChangedPositions(before, after)| == 2
  {
    var before := [Some("skin cancer found"), None, Some("<label>old</label> ok")];
    var after := [Some("피부암 found"), None, Some("<label>new</label> ok")];
    FirstRecord();
    ThirdRecord();
    TwoChanged(before, after);
  }

  lemma TwoChanged(before: seq<Option<string>>, after: seq<Option<string>>)
    requires |before| == |after| == 3
    requires before[0] != after[0] && before[1] == after[1] && before[2] != after[2]
    ensures |ChangedPositions(before, after)| == 2
  {
    assert ChangedPositions(before, after) == {0, 2};
  }
}
