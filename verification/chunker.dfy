/**
  `chunkParagraph`: overlapping windows of at most `maxWords` words, each one
  starting `maxWords - overlap` words after the previous, until a window
  reaches the last word.
 */
module Chunker {
  import opened Text

  /** `MAX_CHUNK_LENGTH` and `OVERLAP`, the defaults of `chunkParagraph`. */
  const MaxChunkLength: nat := 20
  const Overlap: nat := 5

  /** Array.prototype.slice(lo, hi) for non-negative bounds: each bound is
      clamped to the length, and a reversed range is empty. */
  function Slice<T>(s: seq<T>, lo: nat, hi: nat): seq<T> {
    var a := if lo < |s| then lo else |s|;
    var b := if hi < |s| then hi else |s|;
    if b <= a then [] else s[a..b]
  }

  /** A slice of a list of words is a list of words. */
  lemma SliceAllWords(ws: seq<string>, lo: nat, hi: nat)
    requires AllWords(ws)
    ensures AllWords(Slice(ws, lo, hi))
  {
    var a := if lo < |ws| then lo else |ws|;
    var b := if hi < |ws| then hi else |ws|;
    if a < b {
      forall i | 0 <= i < b - a
        ensures IsWord(Slice(ws, lo, hi)[i])
      {
        assert Slice(ws, lo, hi)[i] == ws[a + i];
      }
    }
  }

  /** Distance in words between the starts of consecutive windows. */
  function Stride(maxWords: nat, overlap: nat): nat
    requires overlap < maxWords
  {
    maxWords - overlap
  }

  /** How many windows cover `n` words: none for no words, one when they all
      fit, otherwise one more than cover the words left after a stride. */
  function ChunkCount(n: nat, maxWords: nat, overlap: nat): nat
    requires overlap < maxWords
    decreases n
  {
    if n == 0 then 0
    else if n <= maxWords then 1
    else 1 + ChunkCount(n - Stride(maxWords, overlap), maxWords, overlap)
  }

  /** Index of the first word of window `k`: the loop adds the stride `k`
      times. */
  function Start(k: nat, maxWords: nat, overlap: nat): nat
    requires overlap < maxWords
  {
    if k == 0 then 0 else Start(k - 1, maxWords, overlap) + Stride(maxWords, overlap)
  }

  /** Window `k`: at most `maxWords` words from word `Start(k)` on. */
  function Window(words: seq<string>, k: nat, maxWords: nat, overlap: nat): seq<string>
    requires overlap < maxWords
  {
    var start := Start(k, maxWords, overlap);
    Slice(words, start, start + maxWords)
  }

  /** The chunks of `text`, stated in closed form: chunk `k` is window `k`
      joined with single spaces. */
  function Chunks(text: string, maxWords: nat, overlap: nat): (r: seq<string>)
    requires overlap < maxWords
    ensures r == [] <==> Words(text) == []
  {
    var words := Words(text);
    var count := ChunkCount(|words|, maxWords, overlap);
    seq(count, k requires 0 <= k < count => Join(Window(words, k, maxWords, overlap)))
  }

  /** `chunks` holds the first `|chunks|` windows of `words`, each joined
      with single spaces. */
  predicate JoinedWindows(chunks: seq<string>, words: seq<string>, maxWords: nat, overlap: nat)
    requires overlap < maxWords
  {
    forall k :: 0 <= k < |chunks| ==> chunks[k] == Join(Window(words, k, maxWords, overlap))
  }

  lemma JoinedWindowsExtend(chunks: seq<string>, words: seq<string>, maxWords: nat, overlap: nat)
    requires overlap < maxWords
    requires JoinedWindows(chunks, words, maxWords, overlap)
    ensures JoinedWindows(chunks + [Join(Window(words, |chunks|, maxWords, overlap))], words, maxWords, overlap)
  {}

  lemma JoinedWindowsComplete(chunks: seq<string>, text: string, maxWords: nat, overlap: nat)
    requires overlap < maxWords
    requires JoinedWindows(chunks, Words(text), maxWords, overlap)
    requires |chunks| == ChunkCount(|Words(text)|, maxWords, overlap)
    ensures chunks == Chunks(text, maxWords, overlap)
  {}

  /** The source's loop, step by step: slice, join, trim, push; stop once a
      window reaches the last word, else advance by the stride. */
  method ChunkParagraph(text: string, maxWords: nat, overlap: nat) returns (chunks: seq<string>)
    requires overlap < maxWords
    ensures chunks == Chunks(text, maxWords, overlap)
  {
    var words := Words(text);
    var stride := maxWords - overlap;
    ghost var count := ChunkCount(|words|, maxWords, overlap);
    chunks := [];
    var i: nat := 0;
    while i < |words|
      invariant i == Start(|chunks|, maxWords, overlap)
      invariant |chunks| <= count
      invariant i < |words| ==> |chunks| < count
      invariant i >= |words| ==> |chunks| == count
      invariant JoinedWindows(chunks, words, maxWords, overlap)
      decreases |words| - i
    {
      ghost var k := |chunks|;
      var window := Slice(words, i, i + maxWords);
      assert window == Window(words, k, maxWords, overlap);
      LoopStep(|words|, maxWords, overlap, k);
      SliceAllWords(words, i, i + maxWords);
      JoinIsTrimmed(window);
      var chunk := Trim(Join(window));
      JoinedWindowsExtend(chunks, words, maxWords, overlap);
      chunks := chunks + [chunk];
      if i + maxWords >= |words| {
        break;
      }
      i := i + stride;
    }
    JoinedWindowsComplete(chunks, text, maxWords, overlap);
  }

  /** One pass of the loop: window `k` starts inside the text, the break
      test holds exactly at the last window, and after any other the next
      window starts inside the text too. */
  lemma LoopStep(n: nat, maxWords: nat, overlap: nat, k: nat)
    requires overlap < maxWords
    requires k < ChunkCount(n, maxWords, overlap)
    ensures Start(k, maxWords, overlap) < n
    ensures Start(k, maxWords, overlap) + maxWords >= n ==> k == ChunkCount(n, maxWords, overlap) - 1
    ensures Start(k, maxWords, overlap) + maxWords < n ==>
      k + 1 < ChunkCount(n, maxWords, overlap) && Start(k + 1, maxWords, overlap) < n
  {
    var count := ChunkCount(n, maxWords, overlap);
    FinalWindow(n, maxWords, overlap);
    if k < count - 1 {
      NonFinalWindow(n, maxWords, overlap, k);
      StartMonotone(k, count - 1, maxWords, overlap);
    }
    if Start(k, maxWords, overlap) + maxWords < n {
      NonFinalBeforeLast(n, maxWords, overlap, k);
      StartMonotone(k + 1, count - 1, maxWords, overlap);
    }
  }

  // ---------------------------------------------------------------------
  // Arithmetic of the window starts

  /** Window `k` starts at word `k * (maxWords - overlap)`. */
  lemma {:induction false} StartIsProduct(k: nat, maxWords: nat, overlap: nat)
    requires overlap < maxWords
    ensures Start(k, maxWords, overlap) == k * (maxWords - overlap)
  {
    if k > 0 {
      StartIsProduct(k - 1, maxWords, overlap);
      assert (k - 1) * (maxWords - overlap) + (maxWords - overlap) == k * (maxWords - overlap);
    }
  }

  lemma {:induction false} StartMonotone(j: nat, k: nat, maxWords: nat, overlap: nat)
    requires overlap < maxWords && j <= k
    ensures Start(j, maxWords, overlap) <= Start(k, maxWords, overlap)
    decreases k - j
  {
    if j < k {
      StartMonotone(j, k - 1, maxWords, overlap);
    }
  }

  /** The last window reaches the last word and starts inside the text. */
  lemma {:induction false} FinalWindow(n: nat, maxWords: nat, overlap: nat)
    requires overlap < maxWords && n > 0
    ensures ChunkCount(n, maxWords, overlap) >= 1
    ensures Start(ChunkCount(n, maxWords, overlap) - 1, maxWords, overlap) + maxWords >= n
    ensures Start(ChunkCount(n, maxWords, overlap) - 1, maxWords, overlap) < n
    decreases n
  {
    if n > maxWords {
      var rest := n - Stride(maxWords, overlap);
      FinalWindow(rest, maxWords, overlap);
      var c := ChunkCount(rest, maxWords, overlap);
      assert Start(c, maxWords, overlap) == Start(c - 1, maxWords, overlap) + Stride(maxWords, overlap);
    }
  }

  /** Every window before the last ends strictly before the last word, so the
      loop's break test fails there. */
  lemma {:induction false} NonFinalWindow(n: nat, maxWords: nat, overlap: nat, k: nat)
    requires overlap < maxWords
    requires k < ChunkCount(n, maxWords, overlap) - 1
    ensures Start(k, maxWords, overlap) + maxWords < n
    decreases n
  {
    if k > 0 {
      NonFinalWindow(n - Stride(maxWords, overlap), maxWords, overlap, k - 1);
    }
  }

  /** A window whose break test fails is not the last one. */
  lemma NonFinalBeforeLast(n: nat, maxWords: nat, overlap: nat, k: nat)
    requires overlap < maxWords
    requires Start(k, maxWords, overlap) + maxWords < n
    ensures k < ChunkCount(n, maxWords, overlap) - 1
  {
    var count := ChunkCount(n, maxWords, overlap);
    FinalWindow(n, maxWords, overlap);
    if k >= count - 1 {
      StartMonotone(count - 1, k, maxWords, overlap);
    }
  }

  /** The shape of every window the loop emits. */
  lemma WindowShape(words: seq<string>, k: nat, maxWords: nat, overlap: nat)
    requires overlap < maxWords
    requires k < ChunkCount(|words|, maxWords, overlap)
    ensures Start(k, maxWords, overlap) < |words|
    ensures 1 <= |Window(words, k, maxWords, overlap)| <= maxWords
    ensures k < ChunkCount(|words|, maxWords, overlap) - 1 ==>
      Start(k, maxWords, overlap) + maxWords < |words| &&
      Window(words, k, maxWords, overlap)
        == words[Start(k, maxWords, overlap)..Start(k, maxWords, overlap) + maxWords]
    ensures k == ChunkCount(|words|, maxWords, overlap) - 1 ==>
      Window(words, k, maxWords, overlap) == words[Start(k, maxWords, overlap)..]
  {
    var n := |words|;
    var count := ChunkCount(n, maxWords, overlap);
    FinalWindow(n, maxWords, overlap);
    if k < count - 1 {
      NonFinalWindow(n, maxWords, overlap, k);
      StartMonotone(k, count - 1, maxWords, overlap);
    }
  }

  // ---------------------------------------------------------------------
  // Properties of the chunks

  /** The words of each chunk, in order. */
  function ChunkWords(chunks: seq<string>): (r: seq<seq<string>>)
    ensures |r| == |chunks|
  {
    seq(|chunks|, k requires 0 <= k < |chunks| => Words(chunks[k]))
  }

  /** Chunk `k` is window `k` joined, and splitting it again gives the window. */
  lemma ChunkAt(text: string, maxWords: nat, overlap: nat, k: nat)
    requires overlap < maxWords
    requires k < |Chunks(text, maxWords, overlap)|
    ensures Chunks(text, maxWords, overlap)[k] == Join(Window(Words(text), k, maxWords, overlap))
    ensures Words(Chunks(text, maxWords, overlap)[k]) == Window(Words(text), k, maxWords, overlap)
  {
    var words := Words(text);
    var w := Window(words, k, maxWords, overlap);
    var st := Start(k, maxWords, overlap);
    SliceAllWords(words, st, st + maxWords);
    WordsOfJoin(w);
  }

  /** Chunk `k` of `r` is not empty and holds exactly the words of the
      window starting at word `Start(k)`, at most `maxWords` of them. */
  predicate HoldsWindow(r: seq<string>, words: seq<string>, maxWords: nat, overlap: nat, k: nat)
    requires overlap < maxWords && k < |r|
  {
    && Start(k, maxWords, overlap) < |words|
    && Words(r[k]) == Slice(words, Start(k, maxWords, overlap), Start(k, maxWords, overlap) + maxWords)
    && r[k] != ""
    && 1 <= |Words(r[k])| <= maxWords
  }

  lemma ChunkHoldsWindow(text: string, maxWords: nat, overlap: nat, k: nat)
    requires overlap < maxWords
    requires k < |Chunks(text, maxWords, overlap)|
    ensures HoldsWindow(Chunks(text, maxWords, overlap), Words(text), maxWords, overlap, k)
  {
    WindowShape(Words(text), k, maxWords, overlap);
    ChunkAt(text, maxWords, overlap, k);
  }

  /** Chunk `k` holds exactly the words of the window that starts at word
      `Start(k)`, which is `k * (maxWords - overlap)`: it is never empty and
      has at most `maxWords` words. */
  lemma ChunkIsWindow(text: string, maxWords: nat, overlap: nat)
    requires overlap < maxWords
    ensures forall k: nat :: k < |Chunks(text, maxWords, overlap)| ==>
      HoldsWindow(Chunks(text, maxWords, overlap), Words(text), maxWords, overlap, k)
  {
    forall k: nat | k < |Chunks(text, maxWords, overlap)|
      ensures HoldsWindow(Chunks(text, maxWords, overlap), Words(text), maxWords, overlap, k)
    {
      ChunkHoldsWindow(text, maxWords, overlap, k);
    }
  }

  /** Chunk `j` is full and its last `overlap` words are the first
      `overlap` words of chunk `j + 1`. */
  predicate SharesWithNext(r: seq<string>, maxWords: nat, overlap: nat, j: nat)
    requires overlap < maxWords && j + 1 < |r|
  {
    && |Words(r[j])| == maxWords
    && |Words(r[j + 1])| >= overlap
    && Words(r[j])[maxWords - overlap..] == Words(r[j + 1])[..overlap]
  }

  /** A window that is not the last is the `maxWords` words from its start. */
  lemma FullWindow(words: seq<string>, maxWords: nat, overlap: nat, j: nat)
    requires overlap < maxWords
    requires j + 1 < ChunkCount(|words|, maxWords, overlap)
    ensures Start(j, maxWords, overlap) + maxWords < |words|
    ensures Window(words, j, maxWords, overlap)
         == words[Start(j, maxWords, overlap)..Start(j, maxWords, overlap) + maxWords]
  {
    NonFinalWindow(|words|, maxWords, overlap, j);
  }

  /** Window `j + 1` runs from one stride after the start of window `j` up
      to `maxWords` words further, cut at the end of the list. */
  lemma NextWindow(words: seq<string>, maxWords: nat, overlap: nat, j: nat, hi: nat)
    requires overlap < maxWords
    requires Start(j, maxWords, overlap) + maxWords < |words|
    requires hi == if Start(j, maxWords, overlap) + Stride(maxWords, overlap) + maxWords < |words|
                   then Start(j, maxWords, overlap) + Stride(maxWords, overlap) + maxWords else |words|
    ensures Start(j + 1, maxWords, overlap) == Start(j, maxWords, overlap) + Stride(maxWords, overlap)
    ensures Start(j + 1, maxWords, overlap) <= hi <= |words|
    ensures Window(words, j + 1, maxWords, overlap) == words[Start(j + 1, maxWords, overlap)..hi]
  {
  }

  /** Window `j`, when it is not the last, is full, and its last `overlap`
      words open window `j + 1`. */
  lemma WindowsOverlap(words: seq<string>, maxWords: nat, overlap: nat, j: nat)
    requires overlap < maxWords
    requires j + 1 < ChunkCount(|words|, maxWords, overlap)
    ensures |Window(words, j, maxWords, overlap)| == maxWords
    ensures |Window(words, j + 1, maxWords, overlap)| >= overlap
    ensures Window(words, j, maxWords, overlap)[maxWords - overlap..]
         == Window(words, j + 1, maxWords, overlap)[..overlap]
  {
    var st := Start(j, maxWords, overlap);
    var next := st + Stride(maxWords, overlap);
    var hi := if next + maxWords < |words| then next + maxWords else |words|;
    FullWindow(words, maxWords, overlap, j);
    NextWindow(words, maxWords, overlap, j, hi);
    SlicesOverlap(words, st, next, st + maxWords, hi);
  }

  /** Two ranges `a..c` and `b..d` of a list share the range `b..c`. */
  lemma SlicesOverlap<T>(s: seq<T>, a: nat, b: nat, c: nat, d: nat)
    requires a <= b <= c <= d <= |s|
    ensures s[a..c][b - a..] == s[b..c]
    ensures s[b..d][..c - b] == s[b..c]
  {
  }

  lemma OverlapAt(text: string, maxWords: nat, overlap: nat, j: nat)
    requires overlap < maxWords
    requires j + 1 < |Chunks(text, maxWords, overlap)|
    ensures SharesWithNext(Chunks(text, maxWords, overlap), maxWords, overlap, j)
  {
    ChunkAt(text, maxWords, overlap, j);
    ChunkAt(text, maxWords, overlap, j + 1);
    WindowsOverlap(Words(text), maxWords, overlap, j);
  }

  /** Consecutive chunks share `overlap` words: every chunk but the last is
      full, and its last `overlap` words open the next chunk. */
  lemma ChunksOverlap(text: string, maxWords: nat, overlap: nat)
    requires overlap < maxWords
    ensures forall j: nat :: j + 1 < |Chunks(text, maxWords, overlap)| ==>
      SharesWithNext(Chunks(text, maxWords, overlap), maxWords, overlap, j)
  {
    forall j: nat | j + 1 < |Chunks(text, maxWords, overlap)|
      ensures SharesWithNext(Chunks(text, maxWords, overlap), maxWords, overlap, j)
    {
      OverlapAt(text, maxWords, overlap, j);
    }
  }

  /** Rebuilds a word list from overlapping windows: the first `stride` words
      of every window but the last, then the whole last window. */
  function Reassemble(windows: seq<seq<string>>, stride: nat): seq<string>
    decreases |windows|
  {
    if windows == [] then []
    else if |windows| == 1 then windows[0]
    else Slice(windows[0], 0, stride) + Reassemble(windows[1..], stride)
  }

  /** All windows of a word list, in order. */
  function Windows(words: seq<string>, maxWords: nat, overlap: nat): (r: seq<seq<string>>)
    requires overlap < maxWords
    ensures |r| == ChunkCount(|words|, maxWords, overlap)
  {
    var count := ChunkCount(|words|, maxWords, overlap);
    seq(count, k requires 0 <= k < count => Window(words, k, maxWords, overlap))
  }

  /** The part of a non-final window that no later window repeats: its
      first `stride` words. */
  lemma WindowHead(words: seq<string>, maxWords: nat, overlap: nat, j: nat)
    requires overlap < maxWords
    requires j + 1 < ChunkCount(|words|, maxWords, overlap)
    ensures Start(j + 1, maxWords, overlap) <= |words|
    ensures Slice(Window(words, j, maxWords, overlap), 0, Stride(maxWords, overlap))
         == words[Start(j, maxWords, overlap)..Start(j + 1, maxWords, overlap)]
  {
    var st := Start(j, maxWords, overlap);
    NonFinalWindow(|words|, maxWords, overlap, j);
    assert Window(words, j, maxWords, overlap) == words[st..st + maxWords];
  }

  /** Reassembling from window `j` on, when a window follows it: its
      first `stride` words, then the rest. */
  lemma ReassembleStep(windows: seq<seq<string>>, stride: nat, j: nat)
    requires j + 1 < |windows|
    ensures Reassemble(windows[j..], stride) == Slice(windows[j], 0, stride) + Reassemble(windows[j + 1..], stride)
  {
    assert windows[j..][1..] == windows[j + 1..];
  }

  /** When window `j` contributes words `st` up to `next` and the windows
      after it reassemble to the words from `next` on, the windows from `j`
      on reassemble to the words from `st` on. */
  lemma ReassembleJoin(windows: seq<seq<string>>, stride: nat, j: nat,
                       words: seq<string>, st: nat, next: nat)
    requires j + 1 < |windows| && st <= next <= |words|
    requires Slice(windows[j], 0, stride) == words[st..next]
    requires Reassemble(windows[j + 1..], stride) == words[next..]
    ensures Reassemble(windows[j..], stride) == words[st..]
  {
    ReassembleStep(windows, stride, j);
    assert words[st..] == words[st..next] + words[next..];
  }

  lemma {:induction false} ReassembleFrom(words: seq<string>, maxWords: nat, overlap: nat, j: nat)
    requires overlap < maxWords
    requires j < ChunkCount(|words|, maxWords, overlap)
    ensures Start(j, maxWords, overlap) <= |words|
    ensures Reassemble(Windows(words, maxWords, overlap)[j..], Stride(maxWords, overlap))
      == words[Start(j, maxWords, overlap)..]
    decreases ChunkCount(|words|, maxWords, overlap) - j
  {
    var ws := Windows(words, maxWords, overlap);
    var s := Stride(maxWords, overlap);
    var st := Start(j, maxWords, overlap);
    assert ws[j] == Window(words, j, maxWords, overlap);
    if j == |ws| - 1 {
      WindowShape(words, j, maxWords, overlap);
      assert ws[j..] == [ws[j]];
    } else {
      var next := Start(j + 1, maxWords, overlap);
      ReassembleFrom(words, maxWords, overlap, j + 1);
      WindowHead(words, maxWords, overlap, j);
      ReassembleJoin(ws, s, j, words, st, next);
    }
  }

  /** No word is lost or repeated: the non-overlapping part of each chunk,
      followed by the whole last chunk, is the text's word list. */
  lemma ChunksReassemble(text: string, maxWords: nat, overlap: nat)
    requires overlap < maxWords
    ensures Reassemble(ChunkWords(Chunks(text, maxWords, overlap)), maxWords - overlap) == Words(text)
  {
    var words := Words(text);
    var r := Chunks(text, maxWords, overlap);
    var ws := Windows(words, maxWords, overlap);
    forall k | 0 <= k < |r| ensures ChunkWords(r)[k] == ws[k] {
      ChunkAt(text, maxWords, overlap, k);
    }
    assert ChunkWords(r) == ws;
    if r != [] {
      ReassembleFrom(words, maxWords, overlap, 0);
      assert ws[0..] == ws;
    }
  }

  lemma LastChunkIsSuffix(text: string, maxWords: nat, overlap: nat)
    requires overlap < maxWords
    requires Chunks(text, maxWords, overlap) != []
    ensures var r := Chunks(text, maxWords, overlap); var last := Words(r[|r| - 1]);
      |last| <= |Words(text)| && last == Words(text)[|Words(text)| - |last|..]
  {
    var words := Words(text);
    var k := |Chunks(text, maxWords, overlap)| - 1;
    var st := Start(k, maxWords, overlap);
    WindowShape(words, k, maxWords, overlap);
    ChunkAt(text, maxWords, overlap, k);
    assert |words| - |words[st..]| == st;
  }

  lemma OneWindow(text: string, maxWords: nat, overlap: nat)
    requires overlap < maxWords
    requires 0 < |Words(text)| <= maxWords
    ensures Chunks(text, maxWords, overlap) == [Join(Words(text))]
  {
    var words := Words(text);
    var r := Chunks(text, maxWords, overlap);
    assert |r| == 1;
    assert Window(words, 0, maxWords, overlap) == words;
    ChunkAt(text, maxWords, overlap, 0);
  }

  /** The last chunk ends at the last word, and a text of at most `maxWords`
      words gives one chunk: its words joined by single spaces. */
  lemma LastChunkReachesEnd(text: string, maxWords: nat, overlap: nat)
    requires overlap < maxWords
    ensures var r := Chunks(text, maxWords, overlap);
      r != [] ==> |Words(r[|r| - 1])| <= |Words(text)|
                  && Words(r[|r| - 1]) == Words(text)[|Words(text)| - |Words(r[|r| - 1])|..]
    ensures 0 < |Words(text)| <= maxWords ==> Chunks(text, maxWords, overlap) == [Join(Words(text))]
  {
    if Chunks(text, maxWords, overlap) != [] {
      LastChunkIsSuffix(text, maxWords, overlap);
    }
    if 0 < |Words(text)| <= maxWords {
      OneWindow(text, maxWords, overlap);
    }
  }

  /** The number of chunks is 0 without words, and otherwise the number of
      windows up to the first one whose end reaches the last word: the last
      window reaches it and the one before it does not. */
  lemma ChunkCountIsFirstBreak(text: string, maxWords: nat, overlap: nat)
    requires overlap < maxWords
    ensures var n := |Words(text)|; var count := |Chunks(text, maxWords, overlap)|;
      && (n == 0 ==> count == 0)
      && (0 < n <= maxWords ==> count == 1)
      && (n > 0 ==> (count - 1) * (maxWords - overlap) + maxWords >= n)
      && (forall k :: 0 <= k < count - 1 ==> Start(k, maxWords, overlap) + maxWords < n)
      && (n > maxWords ==>
            count >= 2 &&
            (count - 2) * (maxWords - overlap) < n - maxWords <= (count - 1) * (maxWords - overlap))
  {
    var n := |Words(text)|;
    var count := |Chunks(text, maxWords, overlap)|;
    if n > 0 {
      FinalWindow(n, maxWords, overlap);
      StartIsProduct(count - 1, maxWords, overlap);
    }
    if n > maxWords {
      assert count >= 2;
      NonFinalWindow(n, maxWords, overlap, count - 2);
      StartIsProduct(count - 2, maxWords, overlap);
    }
    forall k | 0 <= k < count - 1
      ensures Start(k, maxWords, overlap) + maxWords < n
    {
      NonFinalWindow(n, maxWords, overlap, k);
    }
  }

  /** The value of `i` at the start of pass `k` of the source's loop, for
      any `maxWords` and `overlap`: it starts at 0 and grows by
      `maxWords - overlap` per pass, which is not positive when
      `maxWords <= overlap`. */
  function LoopIndex(k: nat, maxWords: nat, overlap: nat): int {
    if k == 0 then 0 else LoopIndex(k - 1, maxWords, overlap) + maxWords - overlap
  }

  /** With a positive stride the loop's index is the start of the window
      of the same pass, so the terminating loop and the stalled one speak
      about one index. */
  lemma {:induction false} LoopIndexIsStart(k: nat, maxWords: nat, overlap: nat)
    requires overlap < maxWords
    ensures LoopIndex(k, maxWords, overlap) == Start(k, maxWords, overlap)
  {
    if k > 0 {
      LoopIndexIsStart(k - 1, maxWords, overlap);
    }
  }

  /** Without a positive stride the source never leaves its loop once the
      text has more than `maxWords` words: every value `i` takes passes the
      loop test `i < words.length` and fails the break test
      `i + maxWords >= words.length`. */
  lemma {:induction false} StalledLoop(n: nat, maxWords: nat, overlap: nat, k: nat)
    requires maxWords <= overlap && maxWords < n
    ensures LoopIndex(k, maxWords, overlap) <= 0
    ensures LoopIndex(k, maxWords, overlap) < n
    ensures LoopIndex(k, maxWords, overlap) + maxWords < n
  {
    if k > 0 {
      StalledLoop(n, maxWords, overlap, k - 1);
    }
  }
}
