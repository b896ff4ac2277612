/** Round trip and soundness of the descriptor parser. */
module DescriptorProof {
  import opened DescriptorGrammar
  import opened DescriptorSpec
  import opened Wrappers
  import opened Texts

  // ---------- the lexical walk a caller can make before parsing ----------

  /** Behind the brackets, a class name ends within reach of the scan. */
  predicate FieldFits(text: string, i: nat)
    decreases |text| - i
  {
    i < |text| &&
    if text[i] == '[' then FieldFits(text, i + 1) else text[i] == 'L' ==> ScanFinds(text, i)
  }

  function FieldEnd(text: string, i: nat): (j: nat)
    requires FieldFits(text, i)
    ensures i < j <= |text|
    decreases |text| - i
  {
    if text[i] == '[' then FieldEnd(text, i + 1)
    else if text[i] == 'L' then Semicolon(text, i + 1) + 1
    else i + 1
  }

  predicate FieldsFit(text: string, i: nat)
    decreases |text| - i
  {
    i < |text| && (text[i] == ')' || (FieldFits(text, i) && FieldsFit(text, FieldEnd(text, i))))
  }

  function FieldsEnd(text: string, i: nat): (j: nat)
    requires FieldsFit(text, i)
    ensures i <= j < |text| && text[j] == ')'
    decreases |text| - i
  {
    if text[i] == ')' then i else FieldsEnd(text, FieldEnd(text, i))
  }

  predicate MethodFits(text: string, i: nat) {
    && i < |text| && text[i] == '(' && FieldsFit(text, i + 1)
    && var e := FieldsEnd(text, i + 1) + 1;
       e < |text| && (text[e] == 'V' || FieldFits(text, e))
  }

  // ---------- fields ----------

  lemma SemicolonAt(text: string, i: nat, name: string)
    requires TextAt(text, i, name + ";") && ';' !in name
    ensures Semicolon(text, i) == i + |name|
  {
    var j := i + |name|;
    assert text[j] == text[i..j + 1][|name|];
    forall k | i <= k < j ensures text[k] != ';' {
      assert text[k] == text[i..j + 1][k - i] == name[k - i];
    }
  }

  lemma NameComplete(text: string, i: nat, f: FieldVal, name: string)
    requires Readable(text) && ValidField(FieldType(0, Object(name))) && TextAt(text, i, "L" + name + ";")
    ensures i + |name| + 2 < |text|
    ensures ParseField(text, i, f) == FieldResult(true, i + |name| + 2, Onto(f, FieldType(0, Object(name))))
    ensures FieldFits(text, i) && FieldEnd(text, i) == i + |name| + 2
  {
    assert "L" + name + ";" == "L" + (name + ";");
    TextSplit(text, i, "L", name + ";");
    TextSplit(text, i + 1, name, ";");
    SemicolonAt(text, i + 1, name);
    assert text[i] == "L"[0];
    assert text[i + 1..i + 1 + |name|] == name;
  }

  lemma BaseComplete(text: string, i: nat, f: FieldVal, p: Primitive)
    requires Readable(text) && TextAt(text, i, [Letter(p)])
    ensures i + 1 < |text|
    ensures ParseField(text, i, f) == FieldResult(true, i + 1, Onto(f, FieldType(0, Base(p))))
    ensures FieldFits(text, i) && FieldEnd(text, i) == i + 1
  {
    assert text[i] == [Letter(p)][0];
    LettersAreBase(p, p);
    WidthOfLetter(p);
    StartsApart(Base(p), p);
  }

  /** The record a bracket is counted in. */
  function Bracket(f: FieldVal): FieldVal {
    f.(fieldType := f.fieldType + {ARRAY}, dims := (f.dims + 1) % WORD)
  }

  lemma BracketOnto(f: FieldVal, t: FieldType)
    requires t.dims > 0
    ensures Onto(f, t) == Onto(Bracket(f), t.(dims := t.dims - 1)).(width := WIDTH_REF)
  {
  }

  lemma BracketParse(text: string, i: nat, f: FieldVal)
    requires Readable(text) && i < |text| && text[i] == '['
    ensures i + 1 < |text|
    ensures var r := ParseField(text, i + 1, Bracket(f));
      ParseField(text, i, f) == if r.ok then r.(field := r.field.(width := WIDTH_REF)) else r
  {
  }

  lemma {:induction false} FieldComplete(text: string, i: nat, f: FieldVal, t: FieldType)
    requires Readable(text) && ValidField(t) && TextAt(text, i, PrintField(t))
    ensures i + |PrintField(t)| < |text|
    ensures ParseField(text, i, f) == FieldResult(true, i + |PrintField(t)|, Onto(f, t))
    ensures FieldFits(text, i) && FieldEnd(text, i) == i + |PrintField(t)|
    decreases t.dims
  {
    if t.dims == 0 {
      assert t == FieldType(0, t.leaf);
      if t.leaf.Object? {
        hide ParseField; hide FieldFits; hide FieldEnd; hide TextAt; hide Readable; hide Onto;
        NameComplete(text, i, f, t.leaf.name);
      } else {
        BaseComplete(text, i, f, t.leaf.p);
      }
    } else {
      var t' := t.(dims := t.dims - 1);
      TextSplit(text, i, "[", PrintField(t'));
      assert text[i] == '[';
      BracketParse(text, i, f);
      BracketOnto(f, t);
      assert PrintField(t) == "[" + PrintField(t');
      hide ParseField; hide Onto; hide Readable; hide PrintField; hide TextAt;
      FieldComplete(text, i + 1, Bracket(f), t');
    }
  }

  lemma NameSound(text: string, i: nat) returns (t: FieldType)
    requires Readable(text) && i < |text| && text[i] == 'L' && ScanFinds(text, i)
    ensures ValidField(t) && TextAt(text, i, PrintField(t))
    ensures Semicolon(text, i + 1) + 1 == i + |PrintField(t)|
  {
    SemicolonFound(text, i);
    var j := Semicolon(text, i + 1);
    var name := text[i + 1..j];
    t := FieldType(0, Object(name));
    assert forall k :: 0 <= k < |name| ==> name[k] == text[i + 1 + k];
    NameText(text, i, j);
    assert PrintField(t) == "L" + name + ";";
    hide Readable, Semicolon, PrintField;
  }

  lemma NameText(text: string, i: nat, j: nat)
    requires i < j < |text| && text[i] == 'L' && text[j] == ';'
    ensures "L" + text[i + 1..j] + ";" == text[i..j + 1]
  {
  }

  lemma {:induction false} FieldSound(text: string, i: nat, f: FieldVal) returns (t: FieldType)
    requires Readable(text) && i < |text| && ParseField(text, i, f).ok && FieldFits(text, i)
    ensures ValidField(t) && TextAt(text, i, PrintField(t))
    ensures ParseField(text, i, f).pos == i + |PrintField(t)|
    decreases |text| - i
  {
    var c := text[i];
    if IsBase(c) {
      var p := BaseIsLetter(c);
      t := FieldType(0, Base(p));
    } else if c == 'L' {
      t := NameSound(text, i);
    } else {
      assert c == '[';
      BracketParse(text, i, f);
      hide ParseField;
      var t' := FieldSound(text, i + 1, Bracket(f));
      t := t'.(dims := t'.dims + 1);
      assert PrintField(t) == "[" + PrintField(t');
      TextJoin(text, i, "[", PrintField(t'));
    }
  }

  // ---------- parameter lists ----------

  lemma FitStep(text: string, i: nat)
    requires i < |text| && text[i] != ')'
    ensures FieldsFit(text, i) <==> FieldFits(text, i) && FieldsFit(text, FieldEnd(text, i))
    ensures FieldsFit(text, i) ==> FieldsEnd(text, i) == FieldsEnd(text, FieldEnd(text, i))
  {
    hide FieldFits, FieldEnd;
  }

  /** One parameter, then the rest. */
  lemma FieldsStep(text: string, i: nat, t: FieldType)
    requires Readable(text) && ValidField(t) && TextAt(text, i, PrintField(t))
    ensures i + |PrintField(t)| < |text| && text[i] != ')'
    ensures var rest := ParseFields(text, i + |PrintField(t)|);
      ParseFields(text, i) == rest.(fields := [Record(t)] + rest.fields, count := rest.count + 1)
    ensures FieldsFit(text, i) <==> FieldsFit(text, i + |PrintField(t)|)
    ensures FieldsFit(text, i) ==> FieldsEnd(text, i) == FieldsEnd(text, i + |PrintField(t)|)
  {
    hide *;
    FieldAt(text, i, t);
    NextField(text, i);
    FitStep(text, i);
  }

  lemma FieldAt(text: string, i: nat, t: FieldType)
    requires Readable(text) && ValidField(t) && TextAt(text, i, PrintField(t))
    ensures i + |PrintField(t)| < |text| && text[i] != ')'
    ensures ParseField(text, i, ZERO_FIELD) == FieldResult(true, i + |PrintField(t)|, Record(t))
    ensures FieldFits(text, i) && FieldEnd(text, i) == i + |PrintField(t)|
  {
    FieldStart(t);
    assert text[i] == PrintField(t)[0];
    assert Record(t) == Onto(ZERO_FIELD, t);
    hide *;
    FieldComplete(text, i, ZERO_FIELD, t);
  }

  lemma PrintFieldsCons(t: FieldType, rest: seq<FieldType>)
    ensures PrintFields([t] + rest) + ")" == PrintField(t) + (PrintFields(rest) + ")")
    ensures ValidField(t) && ValidFields(rest) ==> ValidFields([t] + rest)
  {
    assert ([t] + rest)[1..] == rest;
    hide ValidField;
    hide PrintField;
  }

  lemma FieldsSplit(text: string, i: nat, ts: seq<FieldType>)
    requires ts != [] && ValidFields(ts) && TextAt(text, i, PrintFields(ts) + ")")
    ensures ValidField(ts[0]) && ValidFields(ts[1..])
    ensures Records(ts) == [Record(ts[0])] + Records(ts[1..])
    ensures TextAt(text, i, PrintField(ts[0]))
    ensures TextAt(text, i + |PrintField(ts[0])|, PrintFields(ts[1..]) + ")")
    ensures |PrintFields(ts)| == |PrintField(ts[0])| + |PrintFields(ts[1..])|
  {
    hide TextAt; hide PrintField; hide ValidField; hide Record;
    var rest := PrintFields(ts[1..]) + ")";
    assert PrintFields(ts) + ")" == PrintField(ts[0]) + rest;
    TextSplit(text, i, PrintField(ts[0]), rest);
  }

  lemma FieldsJoin(text: string, i: nat, t: FieldType, rest: seq<FieldType>)
    requires ValidField(t) && ValidFields(rest)
    requires TextAt(text, i, PrintField(t)) && TextAt(text, i + |PrintField(t)|, PrintFields(rest) + ")")
    ensures ValidFields([t] + rest) && TextAt(text, i, PrintFields([t] + rest) + ")")
  {
    hide TextAt; hide PrintField; hide PrintFields; hide ValidField; hide ValidFields;
    PrintFieldsCons(t, rest);
    TextJoin(text, i, PrintField(t), PrintFields(rest) + ")");
  }

  lemma {:induction false} FieldsComplete(text: string, i: nat, ts: seq<FieldType>)
    requires Readable(text) && ValidFields(ts)
    requires TextAt(text, i, PrintFields(ts) + ")")
    ensures ParseFields(text, i) == FieldsResult(true, i + |PrintFields(ts)|, Records(ts), |ts|)
    ensures FieldsFit(text, i) && FieldsEnd(text, i) == i + |PrintFields(ts)|
    decreases |ts|, 1
  {
    if ts == [] {
      assert text[i] == (PrintFields(ts) + ")")[0];
    } else {
      hide *;
      FieldsCompleteCons(text, i, ts);
    }
  }

  lemma {:induction false} FieldsCompleteCons(text: string, i: nat, ts: seq<FieldType>)
    requires Readable(text) && ValidFields(ts) && ts != []
    requires TextAt(text, i, PrintFields(ts) + ")")
    ensures ParseFields(text, i) == FieldsResult(true, i + |PrintFields(ts)|, Records(ts), |ts|)
    ensures FieldsFit(text, i) && FieldsEnd(text, i) == i + |PrintFields(ts)|
    decreases |ts|, 0
  {
    hide *;
    FieldsSplit(text, i, ts);
    FieldsStep(text, i, ts[0]);
    FieldsComplete(text, i + |PrintField(ts[0])|, ts[1..]);
  }

  lemma {:induction false} FieldsSound(text: string, i: nat) returns (ts: seq<FieldType>)
    requires Readable(text) && i < |text| && ParseFields(text, i).ok && FieldsFit(text, i)
    ensures ValidFields(ts)
    ensures TextAt(text, i, PrintFields(ts) + ")")
    decreases |text| - i, 1
  {
    if text[i] == ')' {
      ts := [];
    } else {
      assert ParseField(text, i, ZERO_FIELD).ok && FieldFits(text, i);
      hide *;
      ts := FieldsSoundCons(text, i);
    }
  }

  lemma {:induction false} FieldsSoundCons(text: string, i: nat) returns (ts: seq<FieldType>)
    requires Readable(text) && i < |text| && ParseFields(text, i).ok && FieldsFit(text, i)
    requires ParseField(text, i, ZERO_FIELD).ok && FieldFits(text, i)
    ensures ValidFields(ts)
    ensures TextAt(text, i, PrintFields(ts) + ")")
    decreases |text| - i, 0
  {
    hide *;
    var t := FieldSound(text, i, ZERO_FIELD);
    FieldsStep(text, i, t);
    var rest := FieldsSound(text, i + |PrintField(t)|);
    FieldsJoin(text, i, t, rest);
    ts := [t] + rest;
  }

  // ---------- whole descriptors ----------

  /** The parse result says exactly what m is; array dimensions are kept modulo 2^16. */
  predicate Reads(r: MethodResult, m: MethodType) {
    && r.status == StatusOk
    && r.params == Records(m.params) && r.count == |m.params|
    && r.hasReturn == m.ret.Some?
    && r.ret == if m.ret.Some? then Record(m.ret.value) else ZERO_FIELD
  }

  lemma MethodSplit(text: string, i: nat, m: MethodType)
    requires TextAt(text, i, PrintMethod(m))
    ensures text[i] == '('
    ensures TextAt(text, i + 1, PrintFields(m.params) + ")")
    ensures TextAt(text, i + 2 + |PrintFields(m.params)|, PrintReturn(m.ret))
    ensures |PrintMethod(m)| == 2 + |PrintFields(m.params)| + |PrintReturn(m.ret)|
    ensures m.ret.None? ==> |PrintReturn(m.ret)| == 1
  {
    var body := PrintFields(m.params) + ")";
    assert PrintMethod(m) == "(" + (body + PrintReturn(m.ret));
    TextSplit(text, i, "(", body + PrintReturn(m.ret));
    TextSplit(text, i + 1, body, PrintReturn(m.ret));
    assert text[i] == "("[0];
  }

  lemma MethodJoin(text: string, i: nat, m: MethodType)
    requires i < |text| && text[i] == '('
    requires TextAt(text, i + 1, PrintFields(m.params) + ")")
    requires TextAt(text, i + 2 + |PrintFields(m.params)|, PrintReturn(m.ret))
    ensures TextAt(text, i, PrintMethod(m))
  {
    var body := PrintFields(m.params) + ")";
    assert PrintMethod(m) == "(" + (body + PrintReturn(m.ret));
    TextJoin(text, i + 1, body, PrintReturn(m.ret));
    assert TextAt(text, i, "(");
    TextJoin(text, i, "(", body + PrintReturn(m.ret));
  }

  lemma ReturnRead(text: string, e: nat, ret: Option<FieldType>)
    requires Readable(text) && (ret.Some? ==> ValidField(ret.value)) && TextAt(text, e, PrintReturn(ret))
    ensures e < |text| && (text[e] == 'V' <==> ret.None?)
    ensures ret.Some? ==> FieldFits(text, e)
    ensures ret.Some? ==>
      ParseField(text, e, ZERO_FIELD) == FieldResult(true, e + |PrintReturn(ret)|, Record(ret.value))
  {
    assert text[e] == PrintReturn(ret)[0];
    hide PrintField; hide ParseField; hide Readable; hide ValidField; hide FieldFits; hide FieldEnd; hide Onto;
    if ret.Some? {
      FieldStart(ret.value);
      FieldComplete(text, e, ZERO_FIELD, ret.value);
    }
  }

  lemma MethodOfParts(text: string, i: nat, ps: FieldsResult, f: FieldResult)
    requires Readable(text) && i < |text| && text[i] == '('
    requires ps.ok && i + 1 < |text| && ParseFields(text, i + 1) == ps
    requires ps.pos + 1 < |text|
    requires text[ps.pos + 1] != 'V' ==> f.ok && ParseField(text, ps.pos + 1, ZERO_FIELD) == f
    ensures ParseMethod(text, i) ==
            if text[ps.pos + 1] == 'V' then MethodResult(StatusOk, ps.pos + 1, ps.fields, ps.count, false, ZERO_FIELD)
            else MethodResult(StatusOk, f.pos, ps.fields, ps.count, true, f.field)
  {
    hide ParseFields; hide ParseField; hide Readable;
  }

  /** Round trip: wherever a printed method type stands in the text, parsing it gives it back. */
  lemma MethodRoundTrip(text: string, i: nat, m: MethodType)
    requires Readable(text) && ValidMethod(m) && TextAt(text, i, PrintMethod(m))
    ensures Reads(ParseMethod(text, i), m)
    ensures var r := ParseMethod(text, i);
      && r.status == StatusOk && r.params == Records(m.params) && r.count == |m.params| && r.hasReturn == m.ret.Some?
      && (m.ret.Some? ==> r.ret == Record(m.ret.value))
      && r.pos == i + |PrintMethod(m)| - (if m.ret.Some? then 0 else 1)
    ensures EndOf(ParseMethod(text, i)) == i + |PrintMethod(m)|
    ensures MethodFits(text, i)
  {
    hide PrintFields; hide PrintMethod; hide PrintReturn; hide ValidField; hide Readable; hide TextAt;
    hide ParseFields; hide ParseField; hide FieldsFit; hide FieldsEnd; hide FieldFits; hide Onto; hide Record;
    hide Records; hide ParseMethod;
    MethodSplit(text, i, m);
    var e := i + 2 + |PrintFields(m.params)|;
    FieldsComplete(text, i + 1, m.params);
    ReturnRead(text, e, m.ret);
    MethodOfParts(text, i, ParseFields(text, i + 1),
                  if m.ret.Some? then ParseField(text, e, ZERO_FIELD) else FieldResult(true, e, ZERO_FIELD));
  }

  lemma MethodSound(text: string, i: nat) returns (m: MethodType)
    requires Readable(text) && MethodFits(text, i) && ParseMethod(text, i).status == StatusOk
    ensures ValidMethod(m) && TextAt(text, i, PrintMethod(m))
  {
    hide PrintFields; hide PrintField; hide PrintMethod; hide ValidField; hide Readable; hide ParseFields; hide FieldsFit;
    hide FieldsEnd; hide ParseField; hide FieldFits; hide Onto;
    var ts := FieldsSound(text, i + 1);
    FieldsComplete(text, i + 1, ts);
    var e := i + 2 + |PrintFields(ts)|;
    if text[e] == 'V' {
      m := MethodType(ts, None);
      assert TextAt(text, e, "V");
    } else {
      var t := FieldSound(text, e, ZERO_FIELD);
      m := MethodType(ts, Some(t));
    }
    MethodJoin(text, i, m);
  }

  /** Soundness: what a successful parse took as a descriptor is the printed form of a method type,
      which the result describes, exactly when every class name is within reach of the scan. */
  lemma MethodSoundness(text: string, i: nat)
    requires Readable(text) && i < |text| && ParseMethod(text, i).status == StatusOk
    ensures EndOf(ParseMethod(text, i)) <= |text| && i <= EndOf(ParseMethod(text, i))
    ensures MethodFits(text, i) <==>
            exists m :: ValidMethod(m) && text[i..EndOf(ParseMethod(text, i))] == PrintMethod(m)
    ensures MethodFits(text, i) ==>
            exists m :: ValidMethod(m) && text[i..EndOf(ParseMethod(text, i))] == PrintMethod(m)
                        && Reads(ParseMethod(text, i), m)
  {
    var r := ParseMethod(text, i);
    MethodBounds(text, i);
    forall m | ValidMethod(m) && text[i..EndOf(r)] == PrintMethod(m) ensures MethodFits(text, i) {
      MethodRoundTrip(text, i, m);
    }
    if MethodFits(text, i) {
      var m := MethodSound(text, i);
      MethodRoundTrip(text, i, m);
    }
  }

  lemma MethodBounds(text: string, i: nat)
    requires Readable(text) && i < |text| && ParseMethod(text, i).status == StatusOk
    ensures i <= EndOf(ParseMethod(text, i)) <= |text|
  {
    FieldsForward(text, i + 1);
  }

  lemma {:induction false} FieldsForward(text: string, i: nat)
    requires Readable(text) && i < |text| && ParseFields(text, i).ok
    ensures ParseFields(text, i).pos >= i
    decreases |text| - i
  {
    if text[i] != ')' {
      FieldsForward(text, ParseField(text, i, ZERO_FIELD).pos);
    }
  }

  /** Two types give the same record exactly when they differ at most by a multiple of 2^16 dimensions. */
  lemma RecordInjective(s: FieldType, t: FieldType)
    requires ValidField(s) && ValidField(t)
    ensures Record(s) == Record(t) <==>
            s.leaf == t.leaf && (s.dims == 0 <==> t.dims == 0) && s.dims % WORD == t.dims % WORD
  {
    if s.leaf.Base? && t.leaf.Base? {
      LettersAreBase(s.leaf.p, t.leaf.p);
    }
    assert BASE in Record(s).fieldType <==> s.leaf.Base?;
    assert BASE in Record(t).fieldType <==> t.leaf.Base?;
    assert ARRAY in Record(s).fieldType <==> s.dims > 0;
    assert ARRAY in Record(t).fieldType <==> t.dims > 0;
    if s.leaf == t.leaf && (s.dims == 0 <==> t.dims == 0) && s.dims % WORD == t.dims % WORD {
      assert Record(s) == Record(t);
    }
  }

  /** A class name that is too long is not refused when a bracket stands where the scan gives up:
      this text is taken for a method with one int[] parameter. */
  lemma OverlongNameAccepted() returns (text: string)
    ensures Readable(text) && !MethodFits(text, 0)
    ensures Reads(ParseMethod(text, 0), MethodType([FieldType(1, Base(Int))], None))
    ensures EndOf(ParseMethod(text, 0)) == |text| - 1
    ensures forall m :: ValidMethod(m) ==> text[..|text| - 1] != PrintMethod(m)
  {
    var junk := seq(MAX_NAME - 1, _ => 'a');
    text := "(L" + junk + "[I)V\0";
    assert |text| == MAX_NAME + 6;
    assert text[1] == 'L' && text[MAX_NAME + 1] == '[' && text[MAX_NAME + 2] == 'I';
    assert text[MAX_NAME + 3] == ')' && text[MAX_NAME + 4] == 'V' && text[MAX_NAME + 5] == '\0';
    assert forall k :: 2 <= k <= MAX_NAME ==> text[k] == junk[k - 2];
    assert Semicolon(text, 2) == |text|;
    var f := ZERO_FIELD.(fieldType := {ARRAY}, dims := 1);
    assert ParseField(text, MAX_NAME + 2, f) == FieldResult(true, MAX_NAME + 3, Record(FieldType(1, Base(Int))));
    assert ParseField(text, 1, ZERO_FIELD) == FieldResult(true, MAX_NAME + 3, Record(FieldType(1, Base(Int))));
    assert ParseFields(text, MAX_NAME + 3) == FieldsResult(true, MAX_NAME + 3, [], 0);
    assert ParseFields(text, 1).fields == [Record(FieldType(1, Base(Int)))];
    MethodSoundness(text, 0);
  }

  // ---------- what the records and texts are ----------

  /** The record of a type, field by field. */
  lemma RecordFields(t: FieldType)
    ensures var r := Record(t);
      && (BASE in r.fieldType <==> t.leaf.Base?) && (OBJECT in r.fieldType <==> t.leaf.Object?)
      && (ARRAY in r.fieldType <==> t.dims > 0)
      && r.baseType == (if t.leaf.Base? then Letter(t.leaf.p) else 'L')
      && r.width == (if t.dims == 0 && (t.leaf == Base(Long) || t.leaf == Base(Double)) then 2 else 1)
      && r.dims == t.dims % 0x1_0000
      && r.name == (if t.leaf.Object? then Some(t.leaf.name) else None)
      && r.nameLen == if t.leaf.Object? then |t.leaf.name| else 0
  {
  }

  /** The scan of a class name finds its semicolon among the 510 characters behind the L, or not at all. */
  lemma NameReach(text: string, i: nat)
    requires i < |text|
    ensures ScanFinds(text, i) <==> exists j :: i < j <= i + 510 && j < |text| && text[j] == ';'
  {
  }

  /** The types of section 4.3.2 of the Java Virtual Machine Specification and their texts. */
  lemma FieldTexts()
    ensures PrintField(FieldType(0, Base(Byte))) == "B" && PrintField(FieldType(0, Base(Char))) == "C"
    ensures PrintField(FieldType(0, Base(Double))) == "D" && PrintField(FieldType(0, Base(Float))) == "F"
    ensures PrintField(FieldType(0, Base(Int))) == "I" && PrintField(FieldType(0, Base(Long))) == "J"
    ensures PrintField(FieldType(0, Base(Short))) == "S" && PrintField(FieldType(0, Base(Boolean))) == "Z"
    ensures PrintField(FieldType(0, Object("Z"))) == "LZ;"
    ensures PrintField(FieldType(0, Object("T"))) == "LT;"
    ensures PrintField(FieldType(3, Base(Double))) == "[[[D"
  {
    assert PrintField(FieldType(1, Base(Double))) == "[D" && PrintField(FieldType(2, Base(Double))) == "[[D";
  }

  /** Like the example of section 4.3.3, Object m(int i, double d, Thread t), with short names. */
  lemma MethodText()
    ensures var number, double, thread := FieldType(0, Base(Int)), FieldType(0, Base(Double)), FieldType(0, Object("T"));
      PrintMethod(MethodType([number] + ([double] + [thread]), Some(FieldType(0, Object("Z")))))
        == "(IDLT;)LZ;"
  {
    var number, double, thread := FieldType(0, Base(Int)), FieldType(0, Base(Double)), FieldType(0, Object("T"));
    FieldTexts();
    PrintCons(number, [double] + [thread]);
    PrintCons(double, [thread]);
    PrintCons(thread, []);
    assert [thread] + [] == [thread];
    var params, ret := [number] + ([double] + [thread]), Some(FieldType(0, Object("Z")));
    PrintParts(MethodType(params, ret));
    hide *;
    assert PrintFields([thread]) == "LT;";
    assert PrintFields(params) == "I" + ("D" + "LT;") == "IDLT;";
    assert "(" + "IDLT;" + ")" + "LZ;" == "(IDLT;)LZ;";
  }

  lemma PrintParts(m: MethodType)
    ensures m.ret.Some? ==> PrintMethod(m) == "(" + PrintFields(m.params) + ")" + PrintField(m.ret.value)
    ensures m.ret.None? ==> PrintMethod(m) == "(" + PrintFields(m.params) + ")" + "V"
  {
    hide PrintField, PrintFields;
  }

  lemma PrintCons(t: FieldType, rest: seq<FieldType>)
    ensures PrintFields([t] + rest) == PrintField(t) + PrintFields(rest) && PrintFields([]) == ""
  {
    assert ([t] + rest)[1..] == rest;
    hide PrintField;
  }

  /** What is refused, and as what: no parenthesis, a parameter of no type, and a return type of none. */
  lemma Refusals()
    ensures Readable("V\0") && ParseMethod("V\0", 0).status == IncorrectMethod
    ensures Readable("(Q)V\0") && ParseMethod("(Q)V\0", 0).status == ErrorInParameter && ParseMethod("(Q)V\0", 0).count == 1
    ensures Readable("()Q\0") && ParseMethod("()Q\0", 0).status == IncorrectMethod
  {
    Letters('Q');
    hide IsBase;
    assert !ParseField("(Q)V\0", 1, ZERO_FIELD).ok && !ParseField("()Q\0", 2, ZERO_FIELD).ok;
  }
}
