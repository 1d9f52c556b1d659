/** `_split_content` (main.py:381-390): the five split modes that turn the
    content of a command into one token per output image. */
module ContentTokenizer {
  import opened PyStr

  /** The `if l.strip()` / `if t.strip()` filter of the line and token modes. */
  predicate StripsNonEmpty(t: string) {
    Strip(t) != []
  }

  /** `[c for c in text if not c.isspace()]`, each character as a string. */
  function CharTokens(text: string): seq<string> {
    if text == [] then []
    else (if IsSpace(text[0]) then [] else [[text[0]]]) + CharTokens(text[1..])
  }

  /** `_split_content(text, mode)`. Any mode other than the four named ones,
      including the default "single", keeps the whole stripped text.
      `splitlines()` is split here at every line-boundary character; it
      differs from that only by the empty pieces it does not produce (for
      "\r\n" and a trailing boundary), and the filter drops empty pieces. */
  function SplitContent(text: string, mode: string): seq<string> {
    if mode == "char" then CharTokens(text)
    else if mode == "word" then Filter(IsNonEmpty, Words(text))
    else if mode == "line" then Filter(StripsNonEmpty, SplitWhere(text, IsLineBreak))
    else if mode == "token" then Filter(StripsNonEmpty, SplitWhere(text, IsBar))
    else [Strip(text)]
  }

  lemma {:induction false} CharTokensAreChars(text: string)
    ensures forall i :: 0 <= i < |CharTokens(text)| ==>
      |CharTokens(text)[i]| == 1 && !IsSpace(CharTokens(text)[i][0])
    ensures Flatten(CharTokens(text)) == Erase(text, IsSpace)
  {
    if text != [] {
      CharTokensAreChars(text[1..]);
      var head := if IsSpace(text[0]) then [] else [[text[0]]];
      FlattenAppend(head, CharTokens(text[1..]));
    }
  }

  /** `char` mode: one token per non-whitespace character, in order, and
      nothing else. */
  lemma CharMode(text: string)
    ensures var tokens := SplitContent(text, "char");
      && (forall i :: 0 <= i < |tokens| ==> |tokens[i]| == 1 && !IsSpace(tokens[i][0]))
      && Flatten(tokens) == Erase(text, IsSpace)
  {
    CharTokensAreChars(text);
  }

  /** `word` mode: the whitespace-separated words; they hold every
      non-whitespace character in order, and joining them with single spaces
      and splitting again gives them back. */
  lemma WordMode(text: string)
    ensures var tokens := SplitContent(text, "word");
      && (forall i :: 0 <= i < |tokens| ==> IsWord(tokens[i]))
      && Flatten(tokens) == Erase(text, IsSpace)
      && Words(JoinWith(tokens, " ")) == tokens
  {
    var ws := Words(text);
    NonEmptyFilterKeeps(ws);
    WordsKeepText(text);
    WordsOfJoin(ws);
  }

  lemma {:induction false} NonEmptyFilterKeeps(ws: seq<string>)
    requires forall i :: 0 <= i < |ws| ==> ws[i] != []
    ensures Filter(IsNonEmpty, ws) == ws
  {
    if ws != [] {
      NonEmptyFilterKeeps(ws[1..]);
    }
  }

  /** The pieces kept by the strip filter hold a non-whitespace character
      and, being pieces of a split, no separator. */
  lemma KeptPieces(text: string, isSep: char -> bool)
    ensures var tokens := Filter(StripsNonEmpty, SplitWhere(text, isSep));
      forall i :: 0 <= i < |tokens| ==>
        HasNonSpace(tokens[i]) && forall j :: 0 <= j < |tokens[i]| ==> !isSep(tokens[i][j])
  {
    var pieces := SplitWhere(text, isSep);
    var tokens := Filter(StripsNonEmpty, pieces);
    forall i | 0 <= i < |tokens|
      ensures HasNonSpace(tokens[i]) && forall j :: 0 <= j < |tokens[i]| ==> !isSep(tokens[i][j])
    {
      assert StripsNonEmpty(tokens[i]);
      assert tokens[i] in pieces;
      var k :| 0 <= k < |pieces| && pieces[k] == tokens[i];
    }
  }

  /** `line` mode: the raw lines that hold a non-whitespace character, kept
      untrimmed and in order; no token holds a line boundary, and the raw
      lines hold every other character of the text. */
  lemma LineMode(text: string)
    ensures var pieces := SplitWhere(text, IsLineBreak);
      var tokens := SplitContent(text, "line");
      && tokens == Filter(StripsNonEmpty, pieces)
      && Flatten(pieces) == Erase(text, IsLineBreak)
      && forall i :: 0 <= i < |tokens| ==>
           HasNonSpace(tokens[i]) && forall j :: 0 <= j < |tokens[i]| ==> !IsLineBreak(tokens[i][j])
  {
    FlattenSplit(text, IsLineBreak);
    KeptPieces(text, IsLineBreak);
  }

  /** `token` mode: the raw '|'-separated pieces that hold a non-whitespace
      character, kept untrimmed and in order; no token holds '|', and the raw
      pieces joined with '|' are the text again. */
  lemma TokenMode(text: string)
    ensures var pieces := SplitWhere(text, IsBar);
      var tokens := SplitContent(text, "token");
      && tokens == Filter(StripsNonEmpty, pieces)
      && JoinWith(pieces, "|") == text
      && forall i :: 0 <= i < |tokens| ==> HasNonSpace(tokens[i]) && '|' !in tokens[i]
  {
    JoinSplit(text, IsBar, '|');
    KeptPieces(text, IsBar);
  }

  /** Any other mode: exactly one token, the stripped text, which keeps every
      non-whitespace character of the text. */
  lemma OtherMode(text: string, mode: string)
    requires mode !in {"char", "word", "line", "token"}
    ensures SplitContent(text, mode) == [Strip(text)]
    ensures Erase(SplitContent(text, mode)[0], IsSpace) == Erase(text, IsSpace)
  {
    StripKeepsText(text);
  }
}
