/**
  Characters, words and the three string operations the popup uses on them:
  splitting on runs of whitespace, joining with single spaces, and trimming.
  The regular expression `/\s+/` is modelled by a character predicate and by
  words as maximal runs of non-whitespace characters.
 */
module Text {

  /** A character matched by `\s` in an ECMAScript regular expression: the
      WhiteSpace and LineTerminator code points. String.prototype.trim strips
      exactly the same set. */
  predicate IsSpace(c: char) {
    || c == '\t' || c == '\n' || c == '\U{000B}' || c == '\U{000C}' || c == '\r'
    || c == ' ' || c == '\U{00A0}' || c == '\U{1680}'
    || ('\U{2000}' <= c <= '\U{200A}')
    || c == '\U{2028}' || c == '\U{2029}' || c == '\U{202F}' || c == '\U{205F}'
    || c == '\U{3000}' || c == '\U{FEFF}'
  }

  predicate SpaceFree(w: string) {
    forall i :: 0 <= i < |w| ==> !IsSpace(w[i])
  }

  /** A word: a non-empty string without whitespace. */
  predicate IsWord(w: string) {
    |w| > 0 && SpaceFree(w)
  }

  predicate AllWords(ws: seq<string>) {
    forall i :: 0 <= i < |ws| ==> IsWord(ws[i])
  }

  /** Length of the longest prefix of `s` that holds no whitespace. */
  function RunLength(s: string): (n: nat)
    ensures n <= |s|
    ensures SpaceFree(s[..n])
    ensures n < |s| ==> IsSpace(s[n])
  {
    if s == [] || IsSpace(s[0]) then 0 else 1 + RunLength(s[1..])
  }

  /** The words of `s` in order: what `s.split(/\s+/).filter(Boolean)` yields. */
  function Words(s: string): (ws: seq<string>)
    ensures AllWords(ws)
    decreases |s|
  {
    if s == [] then []
    else if IsSpace(s[0]) then Words(s[1..])
    else
      var n := RunLength(s);
      [s[..n]] + Words(s[n..])
  }

  /** `ws.join(' ')`. */
  function Join(ws: seq<string>): string
    decreases |ws|
  {
    if ws == [] then ""
    else if |ws| == 1 then ws[0]
    else ws[0] + " " + Join(ws[1..])
  }

  function TrimStart(s: string): string
    decreases |s|
  {
    if s != [] && IsSpace(s[0]) then TrimStart(s[1..]) else s
  }

  function TrimEnd(s: string): string
    decreases |s|
  {
    if s != [] && IsSpace(s[|s| - 1]) then TrimEnd(s[..|s| - 1]) else s
  }

  /** String.prototype.trim. */
  function Trim(s: string): string {
    TrimEnd(TrimStart(s))
  }

  /** `t.split(/\s+/)` for a string `t` with no whitespace at either end: an
      empty string splits into one empty piece, any other such string into
      its words. */
  function SplitTrimmed(t: string): seq<string> {
    if t == "" then [""] else Words(t)
  }

  /** The characters of `s` that are not whitespace, in order. */
  function NonSpace(s: string): string
    decreases |s|
  {
    if s == [] then []
    else (if IsSpace(s[0]) then [] else [s[0]]) + NonSpace(s[1..])
  }

  function Concat(ws: seq<string>): string
    decreases |ws|
  {
    if ws == [] then [] else ws[0] + Concat(ws[1..])
  }

  // ---------------------------------------------------------------------
  // Words

  lemma {:induction false} RunLengthOfWordPrefix(w: string, t: string)
    requires SpaceFree(w)
    ensures RunLength(w + t) == |w| + RunLength(t)
    decreases |w|
  {
    if w != [] {
      assert (w + t)[1..] == w[1..] + t;
      RunLengthOfWordPrefix(w[1..], t);
    } else {
      assert w + t == t;
    }
  }

  lemma WordsAfterSpace(c: char, s: string)
    requires IsSpace(c)
    ensures Words([c] + s) == Words(s)
  {
    assert ([c] + s)[1..] == s;
  }

  /** Joining words with single spaces and splitting again gives them back. */
  lemma {:induction false} WordsOfJoin(ws: seq<string>)
    requires AllWords(ws)
    ensures Words(Join(ws)) == ws
    decreases |ws|
  {
    if ws == [] {
    } else if |ws| == 1 {
      var w := ws[0];
      RunLengthOfWordPrefix(w, []);
      assert w + [] == w;
      assert w[|w|..] == [];
    } else {
      var w, rest := ws[0], Join(ws[1..]);
      var s := w + " " + rest;
      assert s == w + (" " + rest);
      RunLengthOfWordPrefix(w, " " + rest);
      assert RunLength(s) == |w|;
      assert s[..|w|] == w;
      assert s[|w|..] == [' '] + rest;
      WordsAfterSpace(' ', rest);
      WordsOfJoin(ws[1..]);
      assert ws == [w] + ws[1..];
    }
  }

  lemma {:induction false} NonSpaceAppend(a: string, b: string)
    ensures NonSpace(a + b) == NonSpace(a) + NonSpace(b)
    decreases |a|
  {
    if a == [] {
      assert a + b == b;
    } else {
      assert (a + b)[1..] == a[1..] + b;
      NonSpaceAppend(a[1..], b);
    }
  }

  lemma {:induction false} NonSpaceOfSpaceFree(w: string)
    requires SpaceFree(w)
    ensures NonSpace(w) == w
    decreases |w|
  {
    if w != [] {
      NonSpaceOfSpaceFree(w[1..]);
      assert w == [w[0]] + w[1..];
    }
  }

  /** Splitting into words loses no visible character and invents none: the
      words, glued together, are the text with its whitespace removed. */
  lemma {:induction false} WordsKeepEveryVisibleChar(s: string)
    ensures Concat(Words(s)) == NonSpace(s)
    decreases |s|
  {
    if s == [] {
    } else if IsSpace(s[0]) {
      WordsKeepEveryVisibleChar(s[1..]);
    } else {
      var n := RunLength(s);
      WordsKeepEveryVisibleChar(s[n..]);
      assert s == s[..n] + s[n..];
      NonSpaceAppend(s[..n], s[n..]);
      NonSpaceOfSpaceFree(s[..n]);
      assert Words(s)[1..] == Words(s[n..]);
    }
  }

  // ---------------------------------------------------------------------
  // Trimming

  lemma {:induction false} WordsOfTrimStart(s: string)
    ensures Words(TrimStart(s)) == Words(s)
    decreases |s|
  {
    if s != [] && IsSpace(s[0]) {
      WordsOfTrimStart(s[1..]);
    }
  }

  lemma {:induction false} RunLengthBeforeSpace(s: string, c: char)
    requires IsSpace(c)
    ensures RunLength(s + [c]) == RunLength(s)
    decreases |s|
  {
    if s != [] {
      assert (s + [c])[1..] == s[1..] + [c];
      RunLengthBeforeSpace(s[1..], c);
    }
  }

  lemma {:induction false} WordsBeforeSpace(s: string, c: char)
    requires IsSpace(c)
    ensures Words(s + [c]) == Words(s)
    decreases |s|
  {
    if s == [] {
      assert s + [c] == [c];
      assert [c][1..] == [];
    } else if IsSpace(s[0]) {
      assert (s + [c])[1..] == s[1..] + [c];
      WordsBeforeSpace(s[1..], c);
    } else {
      var n := RunLength(s);
      RunLengthBeforeSpace(s, c);
      assert (s + [c])[..n] == s[..n];
      assert (s + [c])[n..] == s[n..] + [c];
      WordsBeforeSpace(s[n..], c);
    }
  }

  lemma {:induction false} WordsOfTrimEnd(s: string)
    ensures Words(TrimEnd(s)) == Words(s)
    decreases |s|
  {
    if s != [] && IsSpace(s[|s| - 1]) {
      var p := s[..|s| - 1];
      WordsOfTrimEnd(p);
      assert s == p + [s[|s| - 1]];
      WordsBeforeSpace(p, s[|s| - 1]);
    }
  }

  lemma {:induction false} TrimStartShape(s: string)
    ensures TrimStart(s) == [] || !IsSpace(TrimStart(s)[0])
    ensures |TrimStart(s)| <= |s|
    decreases |s|
  {
    if s != [] && IsSpace(s[0]) {
      TrimStartShape(s[1..]);
    }
  }

  lemma {:induction false} TrimEndShape(s: string)
    ensures |TrimEnd(s)| <= |s| && TrimEnd(s) == s[..|TrimEnd(s)|]
    ensures TrimEnd(s) == [] || !IsSpace(TrimEnd(s)[|TrimEnd(s)| - 1])
    decreases |s|
  {
    if s != [] && IsSpace(s[|s| - 1]) {
      var p := s[..|s| - 1];
      TrimEndShape(p);
      assert p[..|TrimEnd(p)|] == s[..|TrimEnd(p)|];
    }
  }

  /** Trimming keeps the words, has no whitespace at either end, and is empty
      exactly when the text holds no word. */
  lemma WordsOfTrim(s: string)
    ensures Words(Trim(s)) == Words(s)
    ensures Trim(s) == "" <==> Words(s) == []
    ensures Trim(s) == [] || (!IsSpace(Trim(s)[0]) && !IsSpace(Trim(s)[|Trim(s)| - 1]))
  {
    WordsOfTrimStart(s);
    WordsOfTrimEnd(TrimStart(s));
    var t := TrimStart(s);
    TrimStartShape(s);
    TrimEndShape(t);
    if Trim(s) != "" {
      assert Trim(s)[0] == t[0];
      var n := RunLength(Trim(s));
      assert n >= 1;
      assert Words(Trim(s)) != [];
    }
  }

  lemma {:induction false} JoinEnds(ws: seq<string>)
    requires AllWords(ws) && ws != []
    ensures Join(ws) != []
    ensures Join(ws)[0] == ws[0][0]
    ensures Join(ws)[|Join(ws)| - 1] == ws[|ws| - 1][|ws[|ws| - 1]| - 1]
    decreases |ws|
  {
    if |ws| == 1 {
      assert Join(ws) == ws[0];
    } else {
      var rest := ws[1..];
      assert AllWords(rest) by {
        forall i | 0 <= i < |rest| ensures IsWord(rest[i]) {
          assert rest[i] == ws[i + 1];
        }
      }
      JoinEnds(rest);
      assert Join(ws) == ws[0] + " " + Join(rest);
      assert rest[|rest| - 1] == ws[|ws| - 1];
    }
  }

  /** Joined words carry no whitespace at either end, so trimming them is the
      identity. */
  lemma JoinIsTrimmed(ws: seq<string>)
    requires AllWords(ws)
    ensures Trim(Join(ws)) == Join(ws)
  {
    if ws != [] {
      JoinEnds(ws);
      var s := Join(ws);
      assert !IsSpace(ws[0][0]);
      assert TrimStart(s) == s;
      var last := ws[|ws| - 1];
      assert !IsSpace(last[|last| - 1]);
      assert TrimEnd(s) == s;
    }
  }
}
