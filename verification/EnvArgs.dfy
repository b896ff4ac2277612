/** envargs.c: one pass counts the arguments, a second cuts the buffer in place and fills the vector. */
module EnvArgs {
  import opened ArgTokens
  import opened ArgLayout
  import opened Wrappers

  /** A cell of the argument vector: a null pointer, the caller's i-th pointer, or a place in the buffer. */
  datatype Arg = Null | Given(index: nat) | InBuffer(offset: nat)

  predicate NulFree(s: string) {
    forall k :: 0 <= k < |s| ==> s[k] != '\0'
  }

  /** From p on the buffer still is the C string text. */
  ghost predicate Tail(buf: array<char>, text: string, p: nat)
    reads buf
  {
    && buf.Length == |text| + 1 && p <= |text| && NulFree(text) && buf[|text|] == '\0'
    && forall k :: p <= k < |text| ==> buf[k] == text[k]
  }

  /** A C string stands in the buffer at offset, ended by a NUL at stop. */
  ghost predicate CString(buf: seq<char>, offset: nat, stop: nat, text: string) {
    && offset <= stop < |buf| && buf[stop] == '\0'
    && buf[offset..stop] == text && NulFree(text)
  }

  // ---------- scanning ----------

  /** Over a quoted argument, to its closing quote or the end. */
  method ScanQuoted(v: Variant, buf: array<char>, p: nat, ghost text: string) returns (e: nat)
    requires Tail(buf, text, p)
    ensures e == QuoteEnd(v, text, p)
  {
    e := p;
    while buf[e] != '\0' && buf[e] != '"'
      invariant p <= e <= |text| && QuoteEnd(v, text, e) == QuoteEnd(v, text, p)
      decreases |text| - e
    {
      if v.Unix? && buf[e] == '\\' && buf[e + 1] != '\0' {
        e := e + 1;
      }
      e := e + 1;
    }
  }

  /** Over an unquoted argument, to the first space or the end. */
  method ScanWord(buf: array<char>, p: nat, ghost text: string) returns (e: nat)
    requires Tail(buf, text, p)
    ensures e == WordEnd(text, p)
  {
    e := p;
    while buf[e] != '\0' && !IsSpace(buf[e])
      invariant p <= e <= |text| && WordEnd(text, e) == WordEnd(text, p)
      decreases |text| - e
    {
      e := e + 1;
    }
  }

  method ScanSpaces(buf: array<char>, p: nat, ghost text: string) returns (e: nat)
    requires Tail(buf, text, p)
    ensures e == SkipSpaces(text, p)
  {
    e := p;
    while buf[e] != '\0' && IsSpace(buf[e])
      invariant p <= e <= |text| && SkipSpaces(text, e) == SkipSpaces(text, p)
      decreases |text| - e
    {
      e := e + 1;
    }
  }

  // ---------- the counting pass ----------

  lemma SkipFromWord(text: string, i: nat)
    requires i <= |text|
    ensures SkipSpaces(text, WordEnd(text, i)) == SkipSpaces(text, Past(text, WordEnd(text, i)))
  {
    WordEndIsSpace(text, i);
  }

  lemma {:induction false} WordEndIsSpace(text: string, i: nat)
    requires i <= |text|
    ensures WordEnd(text, i) < |text| ==> IsSpace(text[WordEnd(text, i)])
    decreases |text| - i
  {
    if i < |text| && !IsSpace(text[i]) {
      WordEndIsSpace(text, i + 1);
    }
  }

  lemma TokenCount(v: Variant, text: string, p: nat)
    requires p <= |text|
    ensures var n := SkipSpaces(text, TokenAt(v, text, p).next);
      && |Tokens(v, text, p)| == 1 + (if n == |text| then 0 else |Tokens(v, text, n)|)
      && (p < |text| ==> p < n)
  {
  }

  /** count_args() */
  method CountArgs(v: Variant, s: array<char>, ghost text: string) returns (count: nat)
    requires Tail(s, text, 0)
    ensures count == |Tokens(v, text, 0)|
  {
    hide Tokens; hide TokenAt; hide SkipSpaces;
    count := 0;
    var p, more := 0, true;
    while more
      invariant p <= |text| && (count > 0 && more ==> p < |text|)
      invariant |Tokens(v, text, 0)| == if more then count + |Tokens(v, text, p)| else count
      decreases more, |text| - p
    {
      TokenCount(v, text, p);
      count := count + 1;
      p := SkipArg(v, s, p, text);
      more := s[p] != '\0';
    }
  }

  /** The body of its loop: over one argument and the spaces behind it. */
  method SkipArg(v: Variant, s: array<char>, p: nat, ghost text: string) returns (q: nat)
    requires Tail(s, text, p)
    ensures q == SkipSpaces(text, TokenAt(v, text, p).next)
  {
    q := p;
    if !v.Plain? && s[q] == '"' {
      q := ScanQuoted(v, s, q + 1, text);
      if s[q] != '\0' {
        q := q + 1;
      }
    } else {
      SkipFromWord(text, q);
      q := ScanWord(s, q, text);
    }
    q := ScanSpaces(s, q, text);
  }

  // ---------- the cutting pass ----------

  /** strcpy(s, s + 1) within one C string: everything behind at moves one place to the left. */
  method CopyLeft(buf: array<char>, at: nat, ghost stop: nat)
    requires at < stop < buf.Length && buf[stop] == '\0'
    requires forall k :: at <= k < stop ==> buf[k] != '\0'
    modifies buf
    ensures forall k :: at <= k < stop ==> buf[k] == old(buf[k + 1])
    ensures forall k :: 0 <= k < at || stop <= k < buf.Length ==> buf[k] == old(buf[k])
  {
    var j := at;
    while buf[j + 1] != '\0'
      invariant at <= j < stop
      invariant forall k :: at <= k < j ==> buf[k] == old(buf[k + 1])
      invariant forall k :: 0 <= k < at || j <= k < buf.Length ==> buf[k] == old(buf[k])
      decreases stop - j
    {
      buf[j] := buf[j + 1];
      j := j + 1;
    }
    buf[j] := '\0';
  }

  /** strchr(s, '\\') */
  method FindBackslash(buf: array<char>, from: nat, ghost stop: nat) returns (at: nat)
    requires from <= stop < buf.Length && buf[stop] == '\0'
    requires forall k :: from <= k < stop ==> buf[k] != '\0'
    ensures from <= at <= stop
    ensures forall k :: from <= k < at ==> buf[k] != '\\'
    ensures at < stop ==> buf[at] == '\\'
  {
    at := from;
    while buf[at] != '\0' && buf[at] != '\\'
      invariant from <= at <= stop
      invariant forall k :: from <= k < at ==> buf[k] != '\\'
      decreases stop - at
    {
      at := at + 1;
    }
  }

  lemma EscapeStep(done: string, plain: string, rest: string)
    requires '\\' !in plain && rest != [] && rest[0] == '\\'
    ensures done + Unescape(plain + rest) ==
            if |rest| == 1 then done + plain + Unescape([])
            else done + plain + [rest[1]] + Unescape(rest[2..])
  {
    UnescapePrefix(plain, rest);
  }

  /** Drops escape characters from the C string at start, in place. */
  method RemoveEscapes(buf: array<char>, start: nat, ghost end: nat) returns (ghost stop: nat)
    requires start <= end < buf.Length && buf[end] == '\0'
    requires NulFree(buf[start..end])
    modifies buf
    ensures stop <= end && CString(buf[..], start, stop, Unescape(old(buf[start..end])))
    ensures forall k :: 0 <= k < start || end <= k < buf.Length ==> buf[k] == old(buf[k])
  {
    hide Unescape;
    ghost var raw := buf[start..end];
    var from := start;
    stop := end;
    var at := FindBackslash(buf, from, stop);
    while buf[at] != '\0'
      invariant start <= from <= at <= stop <= end && buf[stop] == '\0'
      invariant forall k :: start <= k < stop ==> buf[k] != '\0'
      invariant forall k :: from <= k < at ==> buf[k] != '\\'
      invariant at < stop ==> buf[at] == '\\'
      invariant buf[start..from] + Unescape(buf[from..stop]) == Unescape(raw)
      invariant forall k :: 0 <= k < start || end <= k < buf.Length ==> buf[k] == old(buf[k])
      decreases stop - at
    {
      from := DropBackslash(buf, start, from, at, stop);
      stop := stop - 1;
      at := FindBackslash(buf, from, stop);
    }
    NothingToRemove(buf[..], start, from, stop, Unescape(raw));
  }

  lemma NothingToRemove(buf: seq<char>, start: nat, from: nat, stop: nat, text: string)
    requires start <= from <= stop < |buf| && buf[stop] == '\0'
    requires forall k :: start <= k < stop ==> buf[k] != '\0'
    requires forall k :: from <= k < stop ==> buf[k] != '\\'
    requires buf[start..from] + Unescape(buf[from..stop]) == text
    ensures CString(buf, start, stop, text)
  {
    hide Unescape;
    UnescapeNone(buf[from..stop]);
    assert buf[start..stop] == buf[start..from] + buf[from..stop];
  }

  lemma SlicesMoved(was: seq<char>, now: seq<char>, start: nat, at: nat, stop: nat)
    requires |was| == |now| && start <= at < stop < |was|
    requires forall k :: 0 <= k < at ==> now[k] == was[k]
    requires forall k :: at <= k < stop ==> now[k] == was[k + 1]
    ensures now[start..at] == was[start..at]
    ensures at + 1 < stop ==> now[start..at + 1] == was[start..at] + [was[at + 1]]
    ensures at + 1 < stop ==> now[at + 1..stop - 1] == was[at + 2..stop]
  {
    if at + 1 < stop {
      assert now[start..at + 1] == now[start..at] + [now[at]];
      var x, y := now[at + 1..stop - 1], was[at + 2..stop];
      forall k | 0 <= k < |x| ensures x[k] == y[k] {
        assert now[at + 1 + k] == was[at + 2 + k];
      }
    }
  }

  lemma SliceJoin(s: seq<char>, a: nat, b: nat, c: nat)
    requires a <= b <= c <= |s|
    ensures s[a..c] == s[a..b] + s[b..c]
  {
  }

  /** What moving the text behind at to the left does to the two parts of RemoveEscapes' invariant. */
  lemma MovedLeft(was: seq<char>, now: seq<char>, start: nat, from: nat, at: nat, stop: nat)
    requires |was| == |now| && start <= from <= at < stop < |was| && was[at] == '\\'
    requires forall k :: from <= k < at ==> was[k] != '\\'
    requires forall k :: 0 <= k < at ==> now[k] == was[k]
    requires forall k :: at <= k < stop ==> now[k] == was[k + 1]
    ensures var from' := if at == stop - 1 then at else at + 1;
      now[start..from'] + Unescape(now[from'..stop - 1]) == was[start..from] + Unescape(was[from..stop])
  {
    hide *;
    SlicesMoved(was, now, start, at, stop);
    var done, plain, rest := was[start..from], was[from..at], was[at..stop];
    SliceJoin(was, from, at, stop);
    SliceJoin(was, start, from, at);
    EscapeStep(done, plain, rest);
    if at == stop - 1 {
      assert now[at..stop - 1] == [];
      assert now[start..at] == done + plain;
    } else {
      assert rest[1] == was[at + 1] && rest[2..] == was[at + 2..stop];
      assert now[start..at + 1] == done + plain + [rest[1]];
    }
  }

  /** One turn of that loop: the backslash at goes, and the character behind it is stepped over. */
  method DropBackslash(buf: array<char>, ghost start: nat, ghost from: nat, at: nat, ghost stop: nat)
      returns (from': nat)
    requires start <= from <= at < stop < buf.Length && buf[stop] == '\0' && buf[at] == '\\'
    requires forall k :: start <= k < stop ==> buf[k] != '\0'
    requires forall k :: from <= k < at ==> buf[k] != '\\'
    modifies buf
    ensures at <= from' <= stop - 1 && from' <= at + 1 && buf[stop - 1] == '\0'
    ensures forall k :: start <= k < stop - 1 ==> buf[k] != '\0'
    ensures buf[start..from'] + Unescape(buf[from'..stop - 1]) == old(buf[start..from] + Unescape(buf[from..stop]))
    ensures forall k :: 0 <= k < start || stop <= k < buf.Length ==> buf[k] == old(buf[k])
  {
    hide Unescape;
    ghost var was := buf[..];
    CopyLeft(buf, at, stop);
    MovedLeft(was, buf[..], start, from, at, stop);
    assert was[start..from] == old(buf[start..from]) && was[from..stop] == old(buf[from..stop]);
    from' := at;
    if buf[from'] != '\0' {
      from' := from' + 1;
    }
    assert buf[..][start..from'] == buf[start..from'] && buf[..][from'..stop - 1] == buf[from'..stop - 1];
  }

  /** One turn of the cutting loop, up to the delimiter: the argument becomes a C string in place. */
  method CutArg(v: Variant, buf: array<char>, p: nat, ghost text: string)
      returns (offset: nat, next: nat, ghost stop: nat)
    requires Tail(buf, text, p)
    modifies buf
    ensures next == TokenAt(v, text, p).next && Tail(buf, text, next)
    ensures CString(buf[..], offset, stop, TokenAt(v, text, p).text)
    ensures p <= offset && stop < buf.Length && (stop < next || next == |text|)
    ensures forall k :: 0 <= k < p ==> buf[k] == old(buf[k])
  {
    hide QuoteEnd; hide WordEnd; hide Unescape; hide IsSpace;
    var end;
    if !v.Plain? && buf[p] == '"' {
      offset := p + 1;
      end := ScanQuoted(v, buf, offset, text);
    } else {
      offset := p;
      end := ScanWord(buf, offset, text);
    }
    next := end;
    ghost var raw := text[offset..end];
    assert buf[offset..end] == raw;
    if buf[end] != '\0' {
      buf[end] := '\0';
      next := end + 1;
    }
    stop := end;
    assert buf[offset..end] == raw;
    if v.Unix? && offset == p + 1 {
      stop := RemoveEscapes(buf, offset, end);
    }
  }

  lemma CStringKept(was: seq<char>, now: seq<char>, p: nat, offset: nat, stop: nat, arg: string)
    requires |was| == |now| && p <= |was| && forall k :: 0 <= k < p ==> was[k] == now[k]
    requires CString(was, offset, stop, arg) && stop < p
    ensures CString(now, offset, stop, arg)
  {
    assert now[offset..stop] == was[offset..stop];
  }

  /** The cell points at this argument, which ends before limit. */
  ghost predicate Placed(buf: seq<char>, cell: Arg, limit: nat, arg: string) {
    cell.InBuffer? && exists stop: nat :: stop < limit && CString(buf, cell.offset, stop, arg)
  }

  ghost predicate Points(buf: seq<char>, cell: Arg, arg: string) {
    Placed(buf, cell, |buf|, arg)
  }

  /** The cells point at the first |cells| arguments, all of which end before limit. */
  ghost predicate AllPlaced(buf: seq<char>, cells: seq<Arg>, limit: nat, args: seq<string>) {
    |cells| <= |args| && forall k :: 0 <= k < |cells| ==> Placed(buf, cells[k], limit, args[k])
  }

  /** Cutting an argument behind p keeps the earlier ones and places one more. */
  lemma PlacedOneMore(was: seq<char>, now: seq<char>, p: nat, limit: nat, cells: seq<Arg>, args: seq<string>,
                      offset: nat, stop: nat)
    requires |was| == |now| && p <= |was| && forall k :: 0 <= k < p ==> was[k] == now[k]
    requires AllPlaced(was, cells, p, args) && |cells| < |args|
    requires CString(now, offset, stop, args[|cells|]) && stop < limit && p <= limit
    ensures AllPlaced(now, cells + [InBuffer(offset)], limit, args)
  {
    hide CString;
    forall k | 0 <= k < |cells| ensures Placed(now, cells[k], limit, args[k]) {
      assert Placed(was, cells[k], p, args[k]);
      var s: nat :| s < p && CString(was, cells[k].offset, s, args[k]);
      CStringKept(was, now, p, cells[k].offset, s, args[k]);
    }
    assert Placed(now, InBuffer(offset), limit, args[|cells|]);
  }

  lemma NonePlaced(buf: seq<char>, limit: nat, args: seq<string>)
    ensures AllPlaced(buf, [], limit, args)
  {
  }

  /** The cutting loop: fills one cell for each argument. */
  method CutArgs(v: Variant, buf: array<char>, argv: array<Arg>, ghost text: string) returns (filled: nat)
    requires Tail(buf, text, 0)
    requires 1 + |Tokens(v, text, 0)| <= argv.Length
    modifies buf, argv
    ensures filled == 1 + |Tokens(v, text, 0)|
    ensures argv[0] == old(argv[0])
    ensures AllPlaced(buf[..], argv[1..filled], buf.Length, Tokens(v, text, 0))
  {
    hide Tokens; hide Tail; hide AllPlaced;
    ghost var args := Tokens(v, text, 0);
    filled := 1;
    var p, more := 0, true;
    NonePlaced(buf[..], p, args);
    assert argv[1..filled] == [];
    while more
      invariant 1 <= filled <= 1 + |args| && p <= |text|
      invariant argv[0] == old(argv[0])
      invariant more ==> Tail(buf, text, p) && filled <= |args| && args[filled - 1..] == Tokens(v, text, p)
      invariant !more ==> filled == 1 + |args|
      invariant AllPlaced(buf[..], argv[1..filled], if more then p else buf.Length, args)
      decreases more, |text| - p
    {
      p, more := CutOne(v, buf, argv, filled, p, text, args);
      filled := filled + 1;
    }
  }

  /** One turn of the cutting loop. */
  method CutOne(v: Variant, buf: array<char>, argv: array<Arg>, filled: nat, p: nat, ghost text: string,
                ghost args: seq<string>) returns (next: nat, more: bool)
    requires p <= |text| && Tail(buf, text, p)
    requires 1 <= filled <= |args| && filled < argv.Length && args[filled - 1..] == Tokens(v, text, p)
    requires AllPlaced(buf[..], argv[1..filled], p, args)
    modifies buf, argv
    ensures argv[0] == old(argv[0])
    ensures next <= |text| && (more ==> p < next)
    ensures more ==> Tail(buf, text, next)
                     && filled < |args| && args[filled..] == Tokens(v, text, next)
    ensures !more ==> filled == |args|
    ensures AllPlaced(buf[..], argv[1..filled + 1], if more then next else buf.Length, args)
  {
    hide Tokens; hide TokenAt; hide SkipSpaces; hide CString; hide IsSpace; hide AllPlaced;
    NextToken(v, text, p);
    assert args[filled - 1..][0] == args[filled - 1];
    ghost var was, cells := buf[..], argv[1..filled];
    var offset, behind; ghost var stop;
    offset, behind, stop := CutArg(v, buf, p, text);
    argv[filled] := InBuffer(offset);
    assert argv[1..filled + 1] == cells + [InBuffer(offset)];
    next := ScanSpaces(buf, behind, text);
    more := buf[next] != '\0';
    PlacedOneMore(was, buf[..], p, if more then next else buf.Length, cells, args, offset, stop);
    assert args[filled..] == args[filled - 1..][1..];
  }

  /** The text envargs takes its arguments from: the first variable that holds more than spaces. */
  function Chosen(usual: Option<string>, alternate: Option<string>): Option<string> {
    if usual.Some? && Stripped(usual.value) != "" then Some(Stripped(usual.value))
    else if alternate.Some? && Stripped(alternate.value) != "" then Some(Stripped(alternate.value))
    else None
  }

  function Stripped(s: string): string {
    s[SkipSpaces(s, 0)..]
  }

  /** Which variable counts, and from where: the usual one from its first character that is no space, the alternate
      one in the same way when the usual is missing or blank, or neither. */
  lemma ChosenIs(usual: Option<string>, alternate: Option<string>, lead: string, rest: string)
    requires Blank(lead) && rest != "" && rest[0] !in " \t\n\r\U{0B}\U{0C}"
    ensures Chosen(Some(lead + rest), alternate) == Some(rest)
    ensures usual.None? || Blank(usual.value) ==> Chosen(usual, Some(lead + rest)) == Some(rest)
    ensures (usual.None? || Blank(usual.value)) && (alternate.None? || Blank(alternate.value)) ==>
      Chosen(usual, alternate) == None
  {
    StrippedIs(lead, rest);
    if usual.Some? && Blank(usual.value) {
      StrippedIs(usual.value, "");
      assert usual.value + "" == usual.value;
    }
    if alternate.Some? && Blank(alternate.value) {
      StrippedIs(alternate.value, "");
      assert alternate.value + "" == alternate.value;
    }
    hide Stripped;
  }

  lemma StrippedIs(lead: string, rest: string)
    requires Blank(lead) && (rest != "" ==> rest[0] !in " \t\n\r\U{0B}\U{0C}")
    ensures Stripped(lead + rest) == rest
  {
    var s := lead + rest;
    assert s[0..|lead|] == lead && s[|lead|..] == rest;
    if rest != "" {
      assert s[|lead|] == rest[0];
      Separators(rest[0]);
    }
    SkipRun(s, 0, lead);
  }

  /** What a user gets who writes words and quoted arguments with spaces around them. */
  lemma EnvironmentLayout(v: Variant, lead: string, pieces: seq<Piece>, gaps: seq<string>, alternate: Option<string>)
    requires pieces != [] && Spaced(pieces, gaps) && forall k :: 0 <= k < |pieces| ==> Fits(v, pieces[k])
    requires Blank(lead)
    ensures Chosen(Some(lead + Spread(pieces, gaps)), alternate) == Some(Spread(pieces, gaps))
    ensures Tokens(v, Spread(pieces, gaps), 0) == Args(pieces)
  {
    LayoutSplit(v, pieces, gaps);
    StartsWithoutBlank(v, pieces[0]);
    SpreadCons(pieces, gaps);
    var s := Spread(pieces, gaps);
    assert s[0] == PieceText(pieces[0])[0];
    Separators(s[0]);
    hide *;
    ChosenIs(None, alternate, lead, s);
  }

  /** Looks the environment up: leading spaces are dropped, and a blank value counts as absent. */
  method LookUp(usual: Option<string>, alternate: Option<string>) returns (env: Option<string>)
    ensures env == Chosen(usual, alternate)
  {
    hide SkipSpaces;
    env := usual;
    if env.Some? {
      env := Some(Stripped(env.value));
    }
    if env.None? || env.value == "" {
      env := alternate;
      if env.Some? {
        env := Some(Stripped(env.value));
      }
    }
    if env.None? || env.value == "" {
      return None;
    }
  }

  /** Copies the old arguments but the program name behind the new ones, and ends the vector. */
  method CopyOldArgs(argv: array<Arg>, start: nat, argc: nat)
    requires argc >= 1 && argv.Length == start + argc
    modifies argv
    ensures forall k :: 0 <= k < start ==> argv[k] == old(argv[k])
    ensures forall k :: 1 <= k < argc ==> argv[start - 1 + k] == Given(k)
    ensures argv[start + argc - 1] == Null
  {
    var filled, taken := start, 1;
    while taken < argc
      invariant 1 <= taken <= argc && filled == start - 1 + taken
      invariant forall k :: 0 <= k < start ==> argv[k] == old(argv[k])
      invariant forall k :: 1 <= k < taken ==> argv[start - 1 + k] == Given(k)
    {
      argv[filled] := Given(taken);
      filled := filled + 1;
      taken := taken + 1;
    }
    argv[filled] := Null;
  }

  lemma AllPoints(buf: seq<char>, argv: seq<Arg>, args: seq<string>)
    requires 1 + |args| <= |argv| && AllPlaced(buf, argv[1..1 + |args|], |buf|, args)
    ensures forall k :: 0 <= k < |args| ==> Points(buf, argv[1 + k], args[k])
  {
    hide Placed;
    forall k | 0 <= k < |args| ensures Points(buf, argv[1 + k], args[k]) {
      assert argv[1..1 + |args|][k] == argv[1 + k];
    }
  }

  /** The copy of the environment string that is cut up. */
  method CopyText(text: string) returns (buf: array<char>)
    requires NulFree(text)
    ensures fresh(buf) && Tail(buf, text, 0)
  {
    buf := new char[1 + |text|](k requires 0 <= k < 1 + |text| => if k < |text| then text[k] else '\0');
  }

  /** Allocates the vector for exactly the counted arguments and fills it. */
  method FillVector(v: Variant, buf: array<char>, argc: nat, ghost text: string)
      returns (argv: array<Arg>, argc': nat)
    requires argc >= 1 && Tail(buf, text, 0)
    modifies buf
    ensures fresh(argv)
    ensures var args := Tokens(v, text, 0);
      && argc' == |args| + argc && argv.Length == argc' + 1
      && argv[0] == Given(0)
      && (forall k :: 0 <= k < |args| ==> Points(buf[..], argv[1 + k], args[k]))
      && (forall k :: 1 <= k < argc ==> argv[|args| + k] == Given(k))
      && argv[argc'] == Null
  {
    hide Tokens; hide Points; hide AllPlaced;
    var count := CountArgs(v, buf, text);
    argv := new Arg[count + argc + 1](_ => Null);
    argv[0] := Given(0);
    var filled := CutArgs(v, buf, argv, text);
    ghost var cells := argv[1..filled];
    CopyOldArgs(argv, filled, argc);
    assert argv[1..filled] == cells;
    AllPoints(buf[..], argv[..], Tokens(v, text, 0));
    argc' := count + argc;
  }

  /** envargs(): usual and alternate are what getenv returns; None in the result leaves the caller's
      vector and count as they were. The old vector has argc pointers. */
  method EnvArgs(v: Variant, usual: Option<string>, alternate: Option<string>, argc: nat)
      returns (result: Option<(array<char>, array<Arg>)>, argc': nat)
    requires argc >= 1
    requires (usual.Some? ==> NulFree(usual.value)) && (alternate.Some? ==> NulFree(alternate.value))
    ensures result.None? <==> Chosen(usual, alternate).None?
    ensures result.None? ==> argc' == argc
    ensures result.Some? ==>
      var args, buf, argv := Tokens(v, Chosen(usual, alternate).value, 0), result.value.0, result.value.1;
      && fresh(buf) && fresh(argv)
      && argc' == |args| + argc && argv.Length == argc' + 1
      && argv[0] == Given(0)
      && (forall k :: 0 <= k < |args| ==> Points(buf[..], argv[1 + k], args[k]))
      && (forall k :: 1 <= k < argc ==> argv[|args| + k] == Given(k))
      && argv[argc'] == Null
  {
    var env := LookUp(usual, alternate);
    if env.None? {
      return None, argc;
    }
    hide Tokens; hide Stripped; hide Points;
    var buf := CopyText(env.value);
    hide Chosen;
    var argv;
    argv, argc' := FillVector(v, buf, argc, env.value);
    result := Some((buf, argv));
  }

  lemma {:induction false} EscapeNulFree(a: string)
    ensures NulFree(Escape(a)) <==> NulFree(a)
  {
    if a != [] {
      EscapeNulFree(a[1..]);
      assert a == [a[0]] + a[1..];
      JoinedNulFree([a[0]], a[1..]);
      JoinedNulFree(if NeedsEscape(a[0]) then ['\\', a[0]] else [a[0]], Escape(a[1..]));
    }
  }

  lemma JoinedNulFree(a: string, b: string)
    ensures NulFree(a + b) <==> NulFree(a) && NulFree(b)
  {
    assert forall k :: 0 <= k < |a| ==> (a + b)[k] == a[k];
    assert forall k :: 0 <= k < |b| ==> (a + b)[|a| + k] == b[k];
  }

  lemma QuoteNulFree(v: Variant, a: string)
    ensures NulFree(Quote(v, a)) <==> NulFree(a)
  {
    EscapeNulFree(a);
    hide Escape;
    var inner := if v.Unix? then Escape(a) else a;
    JoinedNulFree("\"", inner);
    JoinedNulFree("\"" + inner, "\"");
  }

  /** Quoting brings no terminating zeros in, and hides none. */
  lemma {:induction false} JoinNulFree(v: Variant, args: seq<string>)
    ensures NulFree(JoinQuoted(v, args)) <==> forall k :: 0 <= k < |args| ==> NulFree(args[k])
    decreases |args|
  {
    hide NulFree, Quote;
    if args == [] {
      EmptyNulFree();
    } else {
      QuoteNulFree(v, args[0]);
      assert args == [args[0]] + args[1..];
      if |args| > 1 {
        JoinNulFree(v, args[1..]);
        SpacedNulFree(Quote(v, args[0]), JoinQuoted(v, args[1..]));
      }
    }
  }

  lemma EmptyNulFree()
    ensures NulFree("")
  {
  }

  lemma SpacedNulFree(a: string, b: string)
    ensures NulFree(a + " " + b) <==> NulFree(a) && NulFree(b)
  {
    JoinedNulFree(a, " ");
    JoinedNulFree(a + " ", b);
  }

  /** What a user who quotes gets: a text that the variable can hold exactly when the strings can be arguments, and
      whatever the alternate is, exactly the quoted strings between the old arguments. */
  lemma QuotedEnvironment(v: Variant, args: seq<string>, alternate: Option<string>)
    requires args != [] && !v.Plain? && (v.DosFamily? ==> forall k :: 0 <= k < |args| ==> '"' !in args[k])
    ensures NulFree(JoinQuoted(v, args)) <==> forall k :: 0 <= k < |args| ==> NulFree(args[k])
    ensures Chosen(Some(JoinQuoted(v, args)), alternate) == Some(JoinQuoted(v, args))
    ensures Tokens(v, Chosen(Some(JoinQuoted(v, args)), alternate).value, 0) == args
  {
    JoinNulFree(v, args);
    hide Tokens; hide JoinQuoted; hide Quotable; hide NulFree;
    JoinStart(v, args);
    QuoteIsNoSpace();
    var s := JoinQuoted(v, args);
    assert SkipSpaces(s, 0) == 0;
    assert s[0..] == s;
    QuoteRoundTrip(v, args);
  }
}
