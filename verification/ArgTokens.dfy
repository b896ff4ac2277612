/** How envargs.c splits a string into arguments, as functions of the string. */
module ArgTokens {
  import opened Texts

  /** The three branches the preprocessor chooses from: quotes and backslashes, quotes only, neither. */
  datatype Variant = Unix | DosFamily | Plain

  datatype Token = Token(text: string, next: nat)

  /** isspace in the C locale */
  predicate IsSpace(c: char) {
    c in " \t\n\r" || c == '\U{0B}' || c == '\U{0C}'
  }

  /** The closing quote at or after i, or the end. Under Unix a backslash hides the next character. */
  function QuoteEnd(v: Variant, s: string, i: nat): (e: nat)
    requires i <= |s|
    ensures i <= e <= |s|
    decreases |s| - i
  {
    if i == |s| || s[i] == '"' then i
    else if v.Unix? && s[i] == '\\' && i + 1 < |s| then QuoteEnd(v, s, i + 2)
    else QuoteEnd(v, s, i + 1)
  }

  /** The first space at or after i, or the end. */
  function WordEnd(s: string, i: nat): (e: nat)
    requires i <= |s|
    ensures i <= e <= |s|
    decreases |s| - i
  {
    if i == |s| || IsSpace(s[i]) then i else WordEnd(s, i + 1)
  }

  function SkipSpaces(s: string, i: nat): (e: nat)
    requires i <= |s|
    ensures i <= e <= |s|
    ensures e < |s| ==> !IsSpace(s[e])
    decreases |s| - i
  {
    if i < |s| && IsSpace(s[i]) then SkipSpaces(s, i + 1) else i
  }

  /** Drops each backslash and keeps the character behind it. */
  function Unescape(s: string): string {
    if s == [] then []
    else if s[0] != '\\' then [s[0]] + Unescape(s[1..])
    else if |s| == 1 then []
    else [s[1]] + Unescape(s[2..])
  }

  /** One position past e unless the text ends there. */
  function Past(s: string, e: nat): nat {
    if e < |s| then e + 1 else e
  }

  predicate Quoted(v: Variant, s: string, i: nat) {
    !v.Plain? && i < |s| && s[i] == '"'
  }

  /** The argument that starts at i, and where the text goes on behind its delimiter. */
  function TokenAt(v: Variant, s: string, i: nat): (t: Token)
    requires i <= |s|
    ensures i <= t.next <= |s| && (i < |s| ==> i < t.next)
  {
    if Quoted(v, s, i) then
      var e := QuoteEnd(v, s, i + 1);
      Token(if v.Unix? then Unescape(s[i + 1..e]) else s[i + 1..e], Past(s, e))
    else
      var e := WordEnd(s, i);
      WordNotEmpty(s, i);
      Token(s[i..e], Past(s, e))
  }

  lemma WordNotEmpty(s: string, i: nat)
    requires i <= |s|
    ensures i < |s| ==> i < Past(s, WordEnd(s, i))
  {
  }

  /** All arguments from i on; there is always at least one. */
  function Tokens(v: Variant, s: string, i: nat): (ts: seq<string>)
    requires i <= |s|
    ensures |ts| >= 1
    decreases |s| - i
  {
    var t := TokenAt(v, s, i);
    var n := SkipSpaces(s, t.next);
    if n == |s| then [t.text] else [t.text] + Tokens(v, s, n)
  }

  lemma NextToken(v: Variant, text: string, p: nat)
    requires p <= |text|
    ensures var t := TokenAt(v, text, p); var n := SkipSpaces(text, t.next);
      && Tokens(v, text, p) == [t.text] + (if n == |text| then [] else Tokens(v, text, n))
      && t.next <= n && (p < |text| ==> p < n)
  {
  }

  // ---------- quoting is undone ----------

  predicate NeedsEscape(c: char) {
    c == '"' || c == '\\'
  }

  /** A backslash before every quote and every backslash. */
  function Escape(a: string): string {
    if a == [] then []
    else if NeedsEscape(a[0]) then ['\\', a[0]] + Escape(a[1..])
    else [a[0]] + Escape(a[1..])
  }

  function Quote(v: Variant, a: string): string {
    "\"" + (if v.Unix? then Escape(a) else a) + "\""
  }

  /** The quoted strings, separated by single spaces. */
  function JoinQuoted(v: Variant, args: seq<string>): string {
    if args == [] then ""
    else if |args| == 1 then Quote(v, args[0])
    else Quote(v, args[0]) + " " + JoinQuoted(v, args[1..])
  }

  /** What the variant can quote: anything under Unix, strings without quotes in the DOS family. */
  predicate Quotable(v: Variant, a: string) {
    v.Unix? || (v.DosFamily? && '"' !in a)
  }

  lemma {:induction false} UnescapeEscape(a: string)
    ensures Unescape(Escape(a)) == a
  {
    if a != [] {
      UnescapeEscape(a[1..]);
      if NeedsEscape(a[0]) {
        assert Escape(a)[2..] == Escape(a[1..]);
      } else {
        assert Escape(a)[1..] == Escape(a[1..]);
      }
    }
  }

  lemma {:induction false} EscapedEnd(s: string, i: nat, a: string)
    requires TextAt(s, i, Escape(a) + "\"")
    ensures QuoteEnd(Unix, s, i) == i + |Escape(a)|
    decreases |a|
  {
    if a == [] {
      TextChar(s, i, '"');
    } else if NeedsEscape(a[0]) {
      var rest := Escape(a[1..]) + "\"";
      assert Escape(a) + "\"" == ['\\'] + ([a[0]] + rest);
      TextSplit(s, i, ['\\'], [a[0]] + rest);
      TextSplit(s, i + 1, [a[0]], rest);
      TextChar(s, i, '\\');
      TextChar(s, i + 1, a[0]);
      EscapedEnd(s, i + 2, a[1..]);
    } else {
      var rest := Escape(a[1..]) + "\"";
      assert Escape(a) + "\"" == [a[0]] + rest;
      TextSplit(s, i, [a[0]], rest);
      TextChar(s, i, a[0]);
      EscapedEnd(s, i + 1, a[1..]);
    }
  }

  lemma {:induction false} PlainQuoteEnd(s: string, i: nat, a: string)
    requires TextAt(s, i, a + "\"") && '"' !in a
    ensures QuoteEnd(DosFamily, s, i) == i + |a|
    decreases |a|
  {
    if a == [] {
      TextChar(s, i, '"');
    } else {
      assert a + "\"" == [a[0]] + (a[1..] + "\"");
      TextSplit(s, i, [a[0]], a[1..] + "\"");
      TextChar(s, i, a[0]);
      assert a[0] in a;
      PlainQuoteEnd(s, i + 1, a[1..]);
    }
  }

  lemma QuotedSplit(s: string, i: nat, body: string)
    requires TextAt(s, i, "\"" + body + "\"")
    ensures i + |body| + 2 <= |s| && s[i] == '"' && s[i + 1..i + 1 + |body|] == body
    ensures TextAt(s, i + 1, body + "\"")
  {
    assert "\"" + body + "\"" == "\"" + (body + "\"");
    TextSplit(s, i, "\"", body + "\"");
    TextSplit(s, i + 1, body, "\"");
    TextChar(s, i, '"');
  }

  lemma QuotedToken(v: Variant, s: string, i: nat, a: string)
    requires Quotable(v, a) && TextAt(s, i, Quote(v, a))
    ensures i <= |s| && TokenAt(v, s, i) == Token(a, i + |Quote(v, a)|)
  {
    var body := if v.Unix? then Escape(a) else a;
    assert Quote(v, a) == "\"" + body + "\"";
    hide Quote; hide Escape; hide Unescape; hide QuoteEnd; hide WordEnd; hide TextAt;
    QuotedSplit(s, i, body);
    if v.Unix? {
      EscapedEnd(s, i + 1, a);
      UnescapeEscape(a);
    } else {
      PlainQuoteEnd(s, i + 1, a);
    }
  }

  lemma OneSpace(s: string, i: nat, rest: string)
    requires TextAt(s, i, " " + rest) && rest != "" && !IsSpace(rest[0])
    ensures SkipSpaces(s, i) == i + 1 && TextAt(s, i + 1, rest)
  {
    TextSplit(s, i, " ", rest);
    TextChar(s, i, ' ');
    assert s[i + 1] == s[i + 1..i + 1 + |rest|][0];
  }

  lemma JoinCons(v: Variant, args: seq<string>)
    requires |args| > 1
    ensures JoinQuoted(v, args) == Quote(v, args[0]) + (" " + JoinQuoted(v, args[1..]))
  {
    hide Quote;
  }

  lemma {:induction false} JoinStart(v: Variant, args: seq<string>)
    requires args != []
    ensures JoinQuoted(v, args) != "" && JoinQuoted(v, args)[0] == '"'
  {
  }

  lemma JoinSplit(v: Variant, s: string, i: nat, args: seq<string>)
    requires |args| > 1 && TextAt(s, i, JoinQuoted(v, args))
    ensures TextAt(s, i, Quote(v, args[0]))
    ensures TextAt(s, i + |Quote(v, args[0])|, " " + JoinQuoted(v, args[1..]))
    ensures |JoinQuoted(v, args)| == |Quote(v, args[0])| + 1 + |JoinQuoted(v, args[1..])|
  {
    hide Quote; hide JoinQuoted; hide TextAt;
    JoinCons(v, args);
    TextSplit(s, i, Quote(v, args[0]), " " + JoinQuoted(v, args[1..]));
  }

  lemma {:induction false} TokensOfJoin(v: Variant, s: string, i: nat, args: seq<string>)
    requires args != [] && (forall k :: 0 <= k < |args| ==> Quotable(v, args[k]))
    requires i + |JoinQuoted(v, args)| == |s| && TextAt(s, i, JoinQuoted(v, args))
    ensures Tokens(v, s, i) == args
    decreases |args|
  {
    hide Quote; hide TextAt; hide Quotable; hide TokenAt; hide SkipSpaces; hide IsSpace;
    if |args| == 1 {
      QuotedToken(v, s, i, args[0]);
      SkipAtEnd(s);
    } else {
      hide JoinQuoted;
      JoinSplit(v, s, i, args);
      QuotedToken(v, s, i, args[0]);
      JoinStart(v, args[1..]);
      QuoteIsNoSpace();
      OneSpace(s, i + |Quote(v, args[0])|, JoinQuoted(v, args[1..]));
      TokensOfJoin(v, s, i + |Quote(v, args[0])| + 1, args[1..]);
    }
  }

  lemma SkipAtEnd(s: string)
    ensures SkipSpaces(s, |s|) == |s|
  {
  }

  lemma QuoteIsNoSpace()
    ensures !IsSpace('"')
  {
  }

  /** Round trip: quoting every string and joining with spaces is undone by the tokenizer. */
  lemma QuoteRoundTrip(v: Variant, args: seq<string>)
    requires args != [] && !v.Plain? && (v.DosFamily? ==> forall k :: 0 <= k < |args| ==> '"' !in args[k])
    ensures Tokens(v, JoinQuoted(v, args), 0) == args
  {
    assert forall k :: 0 <= k < |args| ==> Quotable(v, args[k]);
    var s := JoinQuoted(v, args);
    assert s[0..|s|] == s;
    hide JoinQuoted; hide Quotable;
    TokensOfJoin(v, s, 0, args);
  }

  // ---------- facts the in-place code uses ----------

  lemma {:induction false} UnescapePrefix(a: string, b: string)
    requires '\\' !in a
    ensures Unescape(a + b) == a + Unescape(b)
  {
    if a == [] {
      assert a + b == b;
    } else {
      assert a[0] in a;
      assert (a + b)[1..] == a[1..] + b;
      UnescapePrefix(a[1..], b);
    }
  }

  lemma {:induction false} UnescapeNone(a: string)
    requires '\\' !in a
    ensures Unescape(a) == a
  {
    assert a + [] == a;
    UnescapePrefix(a, []);
  }

  lemma {:induction false} UnescapeLength(a: string)
    ensures |Unescape(a)| <= |a|
    ensures forall c :: c in Unescape(a) ==> c in a
  {
    if a != [] {
      if a[0] != '\\' {
        UnescapeLength(a[1..]);
      } else if |a| > 1 {
        UnescapeLength(a[2..]);
      }
    }
  }
}
