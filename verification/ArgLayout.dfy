/** Texts of words and quoted arguments with any spaces between them, and what the tokenizer makes of them. */
module ArgLayout {
  import opened ArgTokens
  import opened Texts

  /** The six characters that separate arguments. */
  lemma Separators(c: char)
    ensures IsSpace(c)
            <==> c == ' ' || c == '\t' || c == '\n' || c == '\r' || c == '\U{0B}' || c == '\U{0C}'
  {
  }

  predicate Blank(s: string) {
    forall k :: 0 <= k < |s| ==> s[k] in " \t\n\r\U{0B}\U{0C}"
  }

  predicate NoBlank(s: string) {
    forall k :: 0 <= k < |s| ==> s[k] !in " \t\n\r\U{0B}\U{0C}"
  }

  /** What stands between the quotes for an argument under Unix: a backslash before every quote and every
      backslash, and perhaps before other characters. */
  predicate Spells(body: string, arg: string)
    decreases |body|
  {
    if body == "" then arg == ""
    else if body[0] == '\\' then |body| > 1 && arg != "" && arg[0] == body[1] && Spells(body[2..], arg[1..])
    else body[0] != '"' && arg != "" && arg[0] == body[0] && Spells(body[1..], arg[1..])
  }

  datatype Piece = Word(arg: string) | InQuotes(arg: string, body: string)

  function PieceText(p: Piece): string {
    match p
    case Word(arg) => arg
    case InQuotes(_, body) => "\"" + body + "\""
  }

  predicate Fits(v: Variant, p: Piece) {
    match p
    case Word(arg) => arg != "" && NoBlank(arg) && (v.Plain? || arg[0] != '"')
    case InQuotes(arg, body) => (v.Unix? && Spells(body, arg)) || (v.DosFamily? && body == arg && '"' !in arg)
  }

  /** The text of the pieces, each with the spaces behind it. */
  function Spread(pieces: seq<Piece>, gaps: seq<string>): string
    requires |pieces| == |gaps|
  {
    if pieces == [] then "" else PieceText(pieces[0]) + (gaps[0] + Spread(pieces[1..], gaps[1..]))
  }

  function Args(pieces: seq<Piece>): (args: seq<string>)
    ensures |args| == |pieces| && forall k :: 0 <= k < |pieces| ==> args[k] == pieces[k].arg
  {
    seq(|pieces|, k requires 0 <= k < |pieces| => pieces[k].arg)
  }

  /** Only spaces stand between pieces, and behind a word that is not the last there is one. */
  predicate Spaced(pieces: seq<Piece>, gaps: seq<string>) {
    && |pieces| == |gaps|
    && (forall k :: 0 <= k < |gaps| ==> Blank(gaps[k]))
    && (forall k :: 0 <= k < |gaps| - 1 && pieces[k].Word? ==> gaps[k] != "")
  }

  lemma BlankIsSpace(s: string)
    ensures Blank(s) <==> forall k :: 0 <= k < |s| ==> IsSpace(s[k])
    ensures NoBlank(s) <==> forall k :: 0 <= k < |s| ==> !IsSpace(s[k])
  {
  }

  lemma {:induction false} SkipRun(s: string, i: nat, gap: string)
    requires TextAt(s, i, gap) && Blank(gap)
    requires i + |gap| == |s| || !IsSpace(s[i + |gap|])
    ensures SkipSpaces(s, i) == i + |gap|
    decreases |gap|
  {
    BlankIsSpace(gap);
    if gap != "" {
      assert s[i] == gap[0];
      assert s[i + 1..i + |gap|] == gap[1..];
      SkipRun(s, i + 1, gap[1..]);
    }
  }

  lemma {:induction false} WordRun(s: string, i: nat, word: string)
    requires TextAt(s, i, word) && NoBlank(word)
    requires i + |word| == |s| || IsSpace(s[i + |word|])
    ensures WordEnd(s, i) == i + |word|
    decreases |word|
  {
    BlankIsSpace(word);
    if word != "" {
      assert s[i] == word[0];
      assert s[i + 1..i + |word|] == word[1..];
      WordRun(s, i + 1, word[1..]);
    }
  }

  lemma {:induction false} SpelledEnd(s: string, i: nat, body: string, arg: string)
    requires TextAt(s, i, body + "\"") && Spells(body, arg)
    ensures QuoteEnd(Unix, s, i) == i + |body| && Unescape(body) == arg
    decreases |body|
  {
    if body == "" {
      TextChar(s, i, '"');
    } else {
      var n := if body[0] == '\\' then 2 else 1;
      assert body + "\"" == body[..n] + (body[n..] + "\"");
      TextSplit(s, i, body[..n], body[n..] + "\"");
      assert forall k :: 0 <= k < n ==> s[i + k] == s[i..i + n][k] == body[k];
      SpelledEnd(s, i + n, body[n..], arg[1..]);
    }
  }

  /** One piece at i is one argument, and the text goes on behind it or behind the first space. */
  lemma PieceToken(v: Variant, s: string, i: nat, p: Piece)
    requires Fits(v, p) && TextAt(s, i, PieceText(p))
    requires p.Word? ==> i + |PieceText(p)| == |s| || IsSpace(s[i + |PieceText(p)|])
    ensures i <= |s|
    ensures var e := i + |PieceText(p)|;
      TokenAt(v, s, i) == Token(p.arg, if p.Word? && e < |s| then e + 1 else e)
  {
    if p.Word? {
      WordToken(v, s, i, p.arg);
    } else {
      hide TokenAt, TextAt;
      QuotesToken(v, s, i, p.arg, p.body);
    }
  }

  lemma WordToken(v: Variant, s: string, i: nat, word: string)
    requires Fits(v, Word(word)) && TextAt(s, i, word)
    requires i + |word| == |s| || IsSpace(s[i + |word|])
    ensures TokenAt(v, s, i) == Token(word, Past(s, i + |word|))
  {
    assert s[i] == word[0];
    WordRun(s, i, word);
    hide WordEnd, NoBlank, IsSpace;
  }

  lemma QuotesToken(v: Variant, s: string, i: nat, arg: string, body: string)
    requires Fits(v, InQuotes(arg, body)) && TextAt(s, i, "\"" + body + "\"")
    ensures i + |body| + 2 <= |s| && TokenAt(v, s, i) == Token(arg, i + |body| + 2)
  {
    QuotedSplit(s, i, body);
    hide TextAt, QuoteEnd, Spells, Unescape, WordEnd;
    if v.Unix? {
      SpelledEnd(s, i + 1, body, arg);
    } else {
      PlainQuoteEnd(s, i + 1, arg);
    }
  }

  lemma StartsWithoutBlank(v: Variant, p: Piece)
    requires Fits(v, p)
    ensures PieceText(p) != "" && !IsSpace(PieceText(p)[0])
  {
    if p.Word? {
      BlankIsSpace(p.arg);
    }
  }

  lemma SpreadParts(s: string, i: nat, pieces: seq<Piece>, gaps: seq<string>)
    requires |pieces| == |gaps| && pieces != [] && TextAt(s, i, Spread(pieces, gaps))
    ensures var next := i + |PieceText(pieces[0])| + |gaps[0]|;
      && TextAt(s, i, PieceText(pieces[0])) && TextAt(s, i + |PieceText(pieces[0])|, gaps[0])
      && TextAt(s, next, Spread(pieces[1..], gaps[1..]))
      && i + |Spread(pieces, gaps)| == next + |Spread(pieces[1..], gaps[1..])|
  {
    hide *;
    var first, gap, rest := PieceText(pieces[0]), gaps[0], Spread(pieces[1..], gaps[1..]);
    SpreadCons(pieces, gaps);
    TextSplit(s, i, first, gap + rest);
    TextSplit(s, i + |first|, gap, rest);
    assert |first + (gap + rest)| == |first| + |gap| + |rest|;
  }

  lemma SpreadCons(pieces: seq<Piece>, gaps: seq<string>)
    requires |pieces| == |gaps| && pieces != []
    ensures Spread(pieces, gaps) == PieceText(pieces[0]) + (gaps[0] + Spread(pieces[1..], gaps[1..]))
  {
    hide PieceText;
  }

  /** Behind the spaces of a piece the text ends or the next piece begins. */
  lemma AfterGap(v: Variant, s: string, next: nat, pieces: seq<Piece>, gaps: seq<string>)
    requires |pieces| == |gaps| && (forall k :: 0 <= k < |pieces| ==> Fits(v, pieces[k]))
    requires TextAt(s, next, Spread(pieces, gaps)) && next + |Spread(pieces, gaps)| == |s|
    ensures if pieces == [] then next == |s| else next < |s| && !IsSpace(s[next])
  {
    if pieces != [] {
      SpreadParts(s, next, pieces, gaps);
      StartsWithoutBlank(v, pieces[0]);
      hide Spread;
      assert s[next] == PieceText(pieces[0])[0];
    }
  }

  lemma {:induction false} SpreadTokens(v: Variant, s: string, i: nat, pieces: seq<Piece>, gaps: seq<string>)
    requires pieces != [] && |pieces| == |gaps| && Spaced(pieces, gaps)
    requires forall k :: 0 <= k < |pieces| ==> Fits(v, pieces[k])
    requires TextAt(s, i, Spread(pieces, gaps)) && i + |Spread(pieces, gaps)| == |s|
    ensures Tokens(v, s, i) == Args(pieces)
    decreases |pieces|
  {
    hide *;
    var p, gap := pieces[0], gaps[0];
    var e := i + |PieceText(p)|;
    SpreadParts(s, i, pieces, gaps);
    SpacedRest(pieces, gaps);
    AfterGap(v, s, e + |gap|, pieces[1..], gaps[1..]);
    GapAt(s, e, gap, p.Word? && e < |s|);
    PieceToken(v, s, i, p);
    NextToken(v, s, i);
    ArgsCons(pieces);
    if |pieces| > 1 {
      SpreadTokens(v, s, e + |gap|, pieces[1..], gaps[1..]);
    }
  }

  lemma ArgsCons(pieces: seq<Piece>)
    requires pieces != []
    ensures Args(pieces) == [pieces[0].arg] + Args(pieces[1..]) && Args([]) == []
  {
  }

  lemma SpacedRest(pieces: seq<Piece>, gaps: seq<string>)
    requires pieces != [] && |pieces| == |gaps| && Spaced(pieces, gaps)
    ensures Spaced(pieces[1..], gaps[1..]) && Blank(gaps[0]) && (|pieces| > 1 && pieces[0].Word? ==> gaps[0] != "")
  {
  }

  /** The tokenizer skips the spaces behind a piece, the first of them as a delimiter or not. */
  lemma GapAt(s: string, e: nat, gap: string, delimited: bool)
    requires TextAt(s, e, gap) && Blank(gap)
    requires e + |gap| == |s| || !IsSpace(s[e + |gap|])
    requires delimited ==> gap != ""
    ensures e < |s| && gap != "" ==> IsSpace(s[e])
    ensures SkipSpaces(s, if delimited then e + 1 else e) == e + |gap|
  {
    BlankIsSpace(gap);
    if gap != "" {
      assert s[e] == gap[0];
      assert s[e + 1..e + |gap|] == gap[1..];
      if delimited {
        SkipRun(s, e + 1, gap[1..]);
      }
    }
    SkipRun(s, e, gap);
  }

  /** Words and quoted arguments, in any order and with any spaces between and behind them, come out one by one. */
  lemma LayoutSplit(v: Variant, pieces: seq<Piece>, gaps: seq<string>)
    requires pieces != [] && Spaced(pieces, gaps) && forall k :: 0 <= k < |pieces| ==> Fits(v, pieces[k])
    ensures Tokens(v, Spread(pieces, gaps), 0) == Args(pieces)
  {
    var s := Spread(pieces, gaps);
    assert s[0..|s|] == s;
    hide Spread;
    SpreadTokens(v, s, 0, pieces, gaps);
  }

  /** A quote that is never closed makes the rest of the text one argument. */
  lemma OpenQuote(v: Variant, arg: string, body: string)
    requires (v.Unix? && Spells(body, arg)) || (v.DosFamily? && body == arg && '"' !in arg)
    ensures Tokens(v, "\"" + body, 0) == [arg]
  {
    var s := "\"" + body;
    assert s[1..] == body && s[0] == '"';
    if v.Unix? {
      OpenSpelled(s, 1, body, arg);
    } else {
      assert forall k :: 1 <= k < |s| ==> s[k] == body[k - 1];
      OpenPlain(s, 1);
    }
    assert s[1..|s|] == body;
    OpenToken(v, s, arg);
    hide *;
    SkipAtEnd(s);
    NextToken(v, s, 0);
  }

  lemma OpenToken(v: Variant, s: string, arg: string)
    requires !v.Plain? && s != "" && s[0] == '"' && QuoteEnd(v, s, 1) == |s|
    requires (if v.Unix? then Unescape(s[1..|s|]) else s[1..|s|]) == arg
    ensures TokenAt(v, s, 0) == Token(arg, |s|)
  {
    hide QuoteEnd, Unescape, WordEnd;
  }

  lemma {:induction false} OpenSpelled(s: string, i: nat, body: string, arg: string)
    requires i <= |s| && s[i..] == body && Spells(body, arg)
    ensures QuoteEnd(Unix, s, i) == |s| && Unescape(body) == arg
    decreases |body|
  {
    if body != "" {
      var n := if body[0] == '\\' then 2 else 1;
      assert forall k :: 0 <= k < n ==> s[i + k] == body[k];
      assert s[i + n..] == body[n..];
      OpenSpelled(s, i + n, body[n..], arg[1..]);
    }
  }

  lemma {:induction false} OpenPlain(s: string, i: nat)
    requires i <= |s| && forall k :: i <= k < |s| ==> s[k] != '"'
    ensures QuoteEnd(DosFamily, s, i) == |s|
    decreases |s| - i
  {
    if i < |s| {
      OpenPlain(s, i + 1);
    }
  }

  /** Two options. */
  lemma TwoOptions(v: Variant)
    ensures Tokens(v, "-o -q", 0) == ["-o", "-q"]
  {
    var pieces, gaps := [Word("-o"), Word("-q")], [" ", ""];
    assert Fits(v, Word("-o")) && Fits(v, Word("-q")) && Spaced(pieces, gaps);
    SpreadTwo(Word("-o"), " ", Word("-q"), "");
    LayoutSplit(v, pieces, gaps);
    hide *;
    assert "-o" + (" " + ("-q" + "")) == "-o -q";
  }

  /** An option, an argument with a space in quotes, and spaces behind it. */
  lemma OptionAndQuotes(v: Variant)
    requires !v.Plain?
    ensures Tokens(v, "-x \"a b\" \t", 0) == ["-x", "a b"]
  {
    var quoted := InQuotes("a b", "a b");
    var pieces, gaps := [Word("-x"), quoted], [" ", " \t"];
    hide *;
    QuotedFits(v);
    SpreadTwo(Word("-x"), " ", quoted, " \t");
    LayoutSplit(v, pieces, gaps);
    assert "-x" + (" " + ("\"a b\"" + " \t")) == "-x \"a b\" \t";
  }

  lemma QuotedFits(v: Variant)
    requires !v.Plain?
    ensures Fits(v, Word("-x")) && Fits(v, InQuotes("a b", "a b")) && PieceText(InQuotes("a b", "a b")) == "\"a b\""
    ensures Spaced([Word("-x"), InQuotes("a b", "a b")], [" ", " \t"])
  {
    assert Spells("", "") && Spells("b", "b") && Spells(" b", " b") && Spells("a b", "a b");
  }

  lemma SpreadTwo(p: Piece, gap: string, q: Piece, last: string)
    ensures Spread([p, q], [gap, last]) == PieceText(p) + (gap + (PieceText(q) + last))
    ensures Args([p, q]) == [p.arg, q.arg] && PieceText(Word(p.arg)) == p.arg
  {
    assert [p, q][1..] == [q] && [gap, last][1..] == [last] && [q][1..] == [] && [last][1..] == [];
    SpreadCons([p, q], [gap, last]);
    SpreadCons([q], [last]);
    assert Spread([], []) == "" && last + "" == last;
  }
}
