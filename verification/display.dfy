/**
  Two string helpers of the popup: `truncateText`, which shortens a result
  for the list, and the fallback CSS escaper used to build a class selector
  when the page has no `CSS.escape`.
 */
module Display {
  import opened Text

  /** Default `wordLimit` of `truncateText`. */
  const DefaultWordLimit: nat := 6

  /** `truncateText(text, wordLimit)`. An empty text gives the empty string;
      otherwise the text is trimmed and split on whitespace, and when that
      gives more than `wordLimit` pieces the first `wordLimit` are joined by
      single spaces and followed by an ellipsis. A whitespace-only text splits
      into one empty piece. */
  function TruncateText(text: string, wordLimit: nat): (r: string)
    ensures text == "" ==> r == ""
    ensures text != "" && |Words(text)| <= wordLimit && wordLimit > 0 ==> r == text
    ensures text != "" && wordLimit == 0 ==> r == "..."
    ensures |Words(text)| > wordLimit ==> r == Join(Words(text)[..wordLimit]) + "..."
    ensures |Words(text)| > wordLimit ==>
      |r| >= 3 && r[|r| - 3..] == "..." && Words(r[..|r| - 3]) == Words(text)[..wordLimit]
  {
    if text == "" then ""
    else
      var words := SplitTrimmed(Trim(text));
      WordsOfTrim(text);
      WordsOfJoin(Words(text)[..if wordLimit <= |Words(text)| then wordLimit else |Words(text)|]);
      if |words| > wordLimit then
        var r := Join(words[..wordLimit]) + "...";
        assert r[..|r| - 3] == Join(words[..wordLimit]);
        r
      else text
  }

  /** The label `renderList` shows for a result: `truncateText` with its
      default limit, so at most six words, followed by `...` when cut. */
  function ListLabel(text: string): (r: string)
    ensures |Words(text)| <= DefaultWordLimit ==> r == text
    ensures |Words(text)| > DefaultWordLimit ==>
      r == Join(Words(text)[..DefaultWordLimit]) + "..." &&
      Words(r[..|r| - 3]) == Words(text)[..DefaultWordLimit]
  {
    TruncateText(text, DefaultWordLimit)
  }

  // ---------------------------------------------------------------------
  // Fallback CSS escape

  /** The characters the fallback escaper puts a backslash before: space and
      ``!"#$%&'()*+,./:;<=>?@[\]^`{|}~``. */
  predicate IsCssSpecial(c: char) {
    c in " !\"#$%&'()*+,./:;<=>?@[\\]^`{|}~"
  }

  /** How many characters of `s` need escaping. */
  function SpecialCount(s: string): nat
    decreases |s|
  {
    if s == [] then 0 else (if IsCssSpecial(s[0]) then 1 else 0) + SpecialCount(s[1..])
  }

  /** `str.replace(/([ !"#…~])/g, '\\$1')`: a backslash before every special
      character, every other character unchanged. */
  function CssEscapeFallback(s: string): (r: string)
    ensures |r| == |s| + SpecialCount(s)
    decreases |s|
  {
    if s == [] then ""
    else (if IsCssSpecial(s[0]) then ['\\', s[0]] else [s[0]]) + CssEscapeFallback(s[1..])
  }

  /** What the escaper can produce: every special character stands right
      after a backslash, and every backslash that escapes stands before a
      special character. */
  predicate WellEscaped(t: string)
    decreases |t|
  {
    if t == [] then true
    else if t[0] == '\\' then |t| >= 2 && IsCssSpecial(t[1]) && WellEscaped(t[2..])
    else !IsCssSpecial(t[0]) && WellEscaped(t[1..])
  }

  /** Reads an escaped selector back: a backslash means "the next character
      is literal". */
  function Unescape(t: string): string
    decreases |t|
  {
    if t == [] then ""
    else if t[0] == '\\' && |t| >= 2 then [t[1]] + Unescape(t[2..])
    else [t[0]] + Unescape(t[1..])
  }

  lemma {:induction false} EscapeAppend(a: string, b: string)
    ensures CssEscapeFallback(a + b) == CssEscapeFallback(a) + CssEscapeFallback(b)
    decreases |a|
  {
    if a == [] {
      assert a + b == b;
    } else {
      assert (a + b)[1..] == a[1..] + b;
      EscapeAppend(a[1..], b);
    }
  }

  /** The escaper loses nothing and escapes exactly the special characters:
      its output is well escaped and reads back as the input. */
  lemma {:induction false} EscapeRoundTrip(s: string)
    ensures WellEscaped(CssEscapeFallback(s))
    ensures Unescape(CssEscapeFallback(s)) == s
    decreases |s|
  {
    if s != [] {
      EscapeRoundTrip(s[1..]);
      var rest := CssEscapeFallback(s[1..]);
      var r := CssEscapeFallback(s);
      if IsCssSpecial(s[0]) {
        assert r == ['\\', s[0]] + rest;
        assert r[2..] == rest;
      } else {
        assert r == [s[0]] + rest;
        assert r[1..] == rest;
        assert s[0] != '\\';
      }
    }
  }

  /** Conversely, every well-escaped string is the escape of what it reads
      back as, so escaping is a bijection onto the well-escaped strings. */
  lemma {:induction false} UnescapeRoundTrip(t: string)
    requires WellEscaped(t)
    ensures CssEscapeFallback(Unescape(t)) == t
    decreases |t|
  {
    if t != [] {
      if t[0] == '\\' {
        UnescapeRoundTrip(t[2..]);
        assert Unescape(t) == [t[1]] + Unescape(t[2..]);
        EscapeAppend([t[1]], Unescape(t[2..]));
        assert [t[1]][1..] == [];
        assert t == ['\\', t[1]] + t[2..];
      } else {
        UnescapeRoundTrip(t[1..]);
        assert Unescape(t) == [t[0]] + Unescape(t[1..]);
        EscapeAppend([t[0]], Unescape(t[1..]));
        assert [t[0]][1..] == [];
        assert t == [t[0]] + t[1..];
      }
    }
  }
}
