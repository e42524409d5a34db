/**
  The loop in the popup's `init` that prepares scraped fragments for
  embedding: a fragment whose text is at most `MAX_CHUNK_LENGTH` characters
  long passes through, any other is replaced by one copy per chunk of its
  text. The length test counts characters while `chunkParagraph` reads the
  same constant as a number of words.
 */
module Fragments {
  import opened Text
  import opened Documents
  import opened Chunker

  /** `s.length`: the number of UTF-16 code units, so a character outside
      the Basic Multilingual Plane counts twice. */
  function Utf16Length(s: string): (n: nat)
    ensures |s| <= n <= 2 * |s|
    ensures n == |s| <==> forall i :: 0 <= i < |s| ==> s[i] as int <= 0xFFFF
  {
    if s == [] then 0
    else (if s[0] as int > 0xFFFF then 2 else 1) + Utf16Length(s[1..])
  }

  /** `doc.text.length <= MAX_CHUNK_LENGTH`. */
  predicate PassesThrough(doc: Fragment) {
    Utf16Length(doc.text) <= MaxChunkLength
  }

  /** `a` and `b` describe the same page element: they differ at most in
      their text. */
  predicate SameElement(a: Fragment, b: Fragment) {
    a.refClass == b.refClass && a.tag == b.tag && a.index == b.index
  }

  /** The texts of a list of fragments, in order. */
  function Texts(docs: seq<Fragment>): (r: seq<string>)
    ensures |r| == |docs|
  {
    seq(|docs|, k requires 0 <= k < |docs| => docs[k].text)
  }

  /** One copy of `doc` per text, in order, differing from it only in the
      text. */
  function WithTexts(doc: Fragment, texts: seq<string>): (r: seq<Fragment>)
    ensures |r| == |texts|
    ensures forall k :: 0 <= k < |r| ==> r[k] == doc.(text := texts[k])
  {
    seq(|texts|, k requires 0 <= k < |texts| => doc.(text := texts[k]))
  }

  /** What one fragment becomes in `init`: itself when short, otherwise one
      copy per chunk of its text. */
  function ExpandFragment(doc: Fragment): seq<Fragment> {
    if PassesThrough(doc) then [doc]
    else WithTexts(doc, Chunks(doc.text, MaxChunkLength, Overlap))
  }

  /** The fragments the popup sends for embedding, in page order. */
  function ExpandFragments(docs: seq<Fragment>): seq<Fragment>
    decreases |docs|
  {
    if docs == [] then [] else ExpandFragment(docs[0]) + ExpandFragments(docs[1..])
  }

  /** What one fragment becomes. Records made from a long fragment differ from
      it only in their text; their texts are its chunks, each holding one to
      `MAX_CHUNK_LENGTH` words, and together they give back all of its
      words; a long fragment without words disappears. */
  lemma ExpandFragmentSpec(doc: Fragment)
    ensures PassesThrough(doc) ==> ExpandFragment(doc) == [doc]
    ensures var r := ExpandFragment(doc);
      forall k :: 0 <= k < |r| ==> r[k] == doc.(text := r[k].text)
    ensures !PassesThrough(doc) ==>
      Texts(ExpandFragment(doc)) == Chunks(doc.text, MaxChunkLength, Overlap)
    ensures var r := ExpandFragment(doc);
      !PassesThrough(doc) ==> forall k :: 0 <= k < |r| ==> 1 <= |Words(r[k].text)| <= MaxChunkLength
    ensures !PassesThrough(doc) ==>
      Reassemble(ChunkWords(Texts(ExpandFragment(doc))), MaxChunkLength - Overlap) == Words(doc.text)
    ensures !PassesThrough(doc) ==> (ExpandFragment(doc) == [] <==> Words(doc.text) == [])
  {
    if !PassesThrough(doc) {
      var chunks := Chunks(doc.text, MaxChunkLength, Overlap);
      var r := ExpandFragment(doc);
      assert Texts(r) == chunks;
      forall k | 0 <= k < |r| ensures 1 <= |Words(r[k].text)| <= MaxChunkLength {
        ChunkHoldsWindow(doc.text, MaxChunkLength, Overlap, k);
      }
      ChunksReassemble(doc.text, MaxChunkLength, Overlap);
    }
  }

  lemma ExpandOne(doc: Fragment)
    ensures ExpandFragments([doc]) == ExpandFragment(doc)
  {
    assert [doc][1..] == [];
  }

  /** The loop of `init` as written: walk the fragments in order and push
      either the fragment or one record per chunk. */
  method ChunkDocuments(documents: seq<Fragment>) returns (chunkedDoc: seq<Fragment>)
    ensures chunkedDoc == ExpandFragments(documents)
  {
    chunkedDoc := [];
    var index := 0;
    while index < |documents|
      invariant 0 <= index <= |documents|
      invariant chunkedDoc == ExpandFragments(documents[..index])
    {
      var doc := documents[index];
      ghost var before := chunkedDoc;
      if Utf16Length(doc.text) <= MaxChunkLength {
        chunkedDoc := chunkedDoc + [doc];
      } else {
        var chunks := ChunkParagraph(doc.text, MaxChunkLength, Overlap);
        chunkedDoc := PushChunks(chunkedDoc, doc, chunks);
      }
      assert chunkedDoc == before + ExpandFragment(doc);
      ExpandPrefix(documents, index);
      index := index + 1;
    }
    assert documents[..index] == documents;
  }

  /** Expanding one more fragment of a list appends its expansion. */
  lemma ExpandPrefix(docs: seq<Fragment>, index: nat)
    requires index < |docs|
    ensures ExpandFragments(docs[..index + 1]) == ExpandFragments(docs[..index]) + ExpandFragment(docs[index])
  {
    ExpandOne(docs[index]);
    ExpandAppend(docs[..index], [docs[index]]);
    assert docs[..index + 1] == docs[..index] + [docs[index]];
  }

  /** `chunks.forEach(chunk => chunkedDoc.push({ ...doc, text: chunk }))`:
      one record per chunk is appended, in chunk order. */
  method PushChunks(acc: seq<Fragment>, doc: Fragment, chunks: seq<string>) returns (out: seq<Fragment>)
    ensures out == acc + WithTexts(doc, chunks)
  {
    out := acc;
    var j := 0;
    while j < |chunks|
      invariant 0 <= j <= |chunks|
      invariant out == acc + WithTexts(doc, chunks[..j])
    {
      assert WithTexts(doc, chunks[..j + 1]) == WithTexts(doc, chunks[..j]) + [doc.(text := chunks[j])];
      out := out + [doc.(text := chunks[j])];
      j := j + 1;
    }
    assert chunks[..j] == chunks;
  }

  /** Expansion works fragment by fragment, so it keeps the page order:
      expanding two lists one after the other is expanding their
      concatenation. */
  lemma {:induction false} ExpandAppend(a: seq<Fragment>, b: seq<Fragment>)
    ensures ExpandFragments(a + b) == ExpandFragments(a) + ExpandFragments(b)
    decreases |a|
  {
    if a == [] {
      assert a + b == b;
    } else {
      assert (a + b)[1..] == a[1..] + b;
      ExpandAppend(a[1..], b);
    }
  }

  /** `rec` describes the element of one of `docs`. */
  predicate FromScraped(rec: Fragment, docs: seq<Fragment>) {
    exists i :: 0 <= i < |docs| && SameElement(rec, docs[i])
  }

  /** Each record one fragment expands to points at that fragment's element. */
  lemma ExpandSameElement(doc: Fragment)
    ensures forall k :: 0 <= k < |ExpandFragment(doc)| ==> SameElement(ExpandFragment(doc)[k], doc)
  {
    if !PassesThrough(doc) {
      var r := WithTexts(doc, Chunks(doc.text, MaxChunkLength, Overlap));
      assert forall k :: 0 <= k < |r| ==> r[k] == doc.(text := r[k].text);
    }
  }

  /** Every record sent for embedding comes from one scraped fragment and
      differs from it only in its text, so it still points at that
      fragment's element. */
  lemma {:induction false} ExpandKeepsOrigin(docs: seq<Fragment>)
    ensures forall j :: 0 <= j < |ExpandFragments(docs)| ==> FromScraped(ExpandFragments(docs)[j], docs)
    decreases |docs|
  {
    if docs == [] {
      assert ExpandFragments(docs) == [];
    } else {
      ExpandKeepsOrigin(docs[1..]);
      ExpandSameElement(docs[0]);
      var head, tail := ExpandFragment(docs[0]), ExpandFragments(docs[1..]);
      var r := ExpandFragments(docs);
      forall j | 0 <= j < |r|
        ensures FromScraped(r[j], docs)
      {
        if j < |head| {
          assert r[j] == head[j];
          assert SameElement(r[j], docs[0]);
        } else {
          assert r[j] == tail[j - |head|];
          assert FromScraped(tail[j - |head|], docs[1..]);
          var i :| 0 <= i < |docs[1..]| && SameElement(tail[j - |head|], docs[1..][i]);
          assert SameElement(r[j], docs[i + 1]);
        }
      }
    }
  }

  lemma {:induction false} WordCountBound(s: string)
    ensures |Words(s)| <= |s|
    decreases |s|
  {
    if s != [] {
      if IsSpace(s[0]) {
        WordCountBound(s[1..]);
      } else {
        WordCountBound(s[RunLength(s)..]);
      }
    }
  }

  /** No record holds more than `MAX_CHUNK_LENGTH` words. */
  predicate WithinWordBudget(rs: seq<Fragment>) {
    forall j :: 0 <= j < |rs| ==> |Words(rs[j].text)| <= MaxChunkLength
  }

  lemma FragmentWithinWordBudget(doc: Fragment)
    ensures WithinWordBudget(ExpandFragment(doc))
  {
    WordCountBound(doc.text);
    ExpandFragmentSpec(doc);
  }

  /** Although the pass-through test counts characters, not words, no
      record sent for embedding holds more than `MAX_CHUNK_LENGTH` words: a
      fragment of at most 20 characters cannot hold more than 20 words. */
  lemma {:induction false} ExpandRespectsWordBudget(docs: seq<Fragment>)
    ensures WithinWordBudget(ExpandFragments(docs))
    decreases |docs|
  {
    if docs != [] {
      ExpandRespectsWordBudget(docs[1..]);
      FragmentWithinWordBudget(docs[0]);
      WordBudgetAppend(ExpandFragment(docs[0]), ExpandFragments(docs[1..]));
    }
  }

  lemma WordBudgetAppend(a: seq<Fragment>, b: seq<Fragment>)
    requires WithinWordBudget(a) && WithinWordBudget(b)
    ensures WithinWordBudget(a + b)
  {
    forall j | 0 <= j < |a + b| ensures |Words((a + b)[j].text)| <= MaxChunkLength {
      if j >= |a| {
        assert (a + b)[j] == b[j - |a|];
      } else {
        assert (a + b)[j] == a[j];
      }
    }
  }

  /** A fragment longer than 20 characters but with at most 20 words is not
      passed through: it becomes a single record whose text is its words
      joined by single spaces, so any other whitespace in it is normalised. */
  lemma LongFewWordsIsNormalised(doc: Fragment)
    requires !PassesThrough(doc)
    requires 0 < |Words(doc.text)| <= MaxChunkLength
    ensures ExpandFragment(doc) == [doc.(text := Join(Words(doc.text)))]
  {
    LastChunkReachesEnd(doc.text, MaxChunkLength, Overlap);
    var r := ExpandFragment(doc);
    assert |r| == 1;
  }
}
