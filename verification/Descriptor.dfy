/** Field and method types and their text, sections 4.3.2 and 4.3.3 of the Java Virtual Machine
    Specification. */
module DescriptorGrammar {
  import opened Wrappers

  /** The object scan of the parser gives up after this many characters (jvmmcros.h). */
  const MAX_NAME: nat := 510

  /** The table of IsJvmBaseType. */
  const BASE_TYPES: string := "BCDFIJSZ"

  /** The primitive types of the language, and how many words each takes. */
  datatype Primitive = Byte | Char | Double | Float | Int | Long | Short | Boolean

  function Letter(p: Primitive): char {
    match p
    case Byte => 'B'
    case Char => 'C'
    case Double => 'D'
    case Float => 'F'
    case Int => 'I'
    case Long => 'J'
    case Short => 'S'
    case Boolean => 'Z'
  }

  function Words(p: Primitive): nat {
    match p
    case Byte => 1
    case Char => 1
    case Double => 2
    case Float => 1
    case Int => 1
    case Long => 2
    case Short => 1
    case Boolean => 1
  }

  datatype Leaf = Base(p: Primitive) | Object(name: string)

  datatype FieldType = FieldType(dims: nat, leaf: Leaf)

  datatype MethodType = MethodType(params: seq<FieldType>, ret: Option<FieldType>)

  predicate IsBase(c: char) {
    c in BASE_TYPES
  }

  /** The letters of the table are those of the primitive types, each of one. */
  lemma LettersAreBase(p: Primitive, q: Primitive)
    ensures IsBase(Letter(p)) && (Letter(p) == Letter(q) ==> p == q)
  {
    assert BASE_TYPES[0] == 'B' && BASE_TYPES[1] == 'C' && BASE_TYPES[2] == 'D' && BASE_TYPES[3] == 'F';
    assert BASE_TYPES[4] == 'I' && BASE_TYPES[5] == 'J' && BASE_TYPES[6] == 'S' && BASE_TYPES[7] == 'Z';
  }

  lemma BaseIsLetter(c: char) returns (p: Primitive)
    requires IsBase(c)
    ensures Letter(p) == c
  {
    p := if c == 'B' then Byte else if c == 'C' then Char else if c == 'D' then Double else if c == 'F' then Float
         else if c == 'I' then Int else if c == 'J' then Long else if c == 'S' then Short else Boolean;
  }

  /** The letters, once more: no other character starts a primitive type. */
  lemma Letters(c: char)
    ensures (exists p :: Letter(p) == c)
            <==> c == 'B' || c == 'C' || c == 'D' || c == 'F' || c == 'I' || c == 'J' || c == 'S' || c == 'Z'
    ensures IsBase(c) <==> exists p :: Letter(p) == c
  {
    if IsBase(c) {
      var p := BaseIsLetter(c);
    }
    if p :| Letter(p) == c {
      LettersAreBase(p, p);
    }
  }

  predicate ValidField(t: FieldType) {
    match t.leaf
    case Base(_) => true
    case Object(name) => ';' !in name && '\0' !in name && |name| < MAX_NAME
  }

  predicate ValidFields(ts: seq<FieldType>) {
    ts == [] || (ValidField(ts[0]) && ValidFields(ts[1..]))
  }

  predicate ValidMethod(m: MethodType) {
    ValidFields(m.params) && (m.ret.Some? ==> ValidField(m.ret.value))
  }

  function PrintLeaf(leaf: Leaf): string {
    match leaf
    case Base(p) => [Letter(p)]
    case Object(name) => "L" + name + ";"
  }

  function PrintField(t: FieldType): (text: string)
    ensures |text| > 0
    decreases t.dims
  {
    if t.dims == 0 then PrintLeaf(t.leaf) else "[" + PrintField(t.(dims := t.dims - 1))
  }

  function PrintFields(ts: seq<FieldType>): string {
    if ts == [] then "" else PrintField(ts[0]) + PrintFields(ts[1..])
  }

  function PrintReturn(ret: Option<FieldType>): string {
    if ret.Some? then PrintField(ret.value) else "V"
  }

  function PrintMethod(m: MethodType): string {
    "(" + PrintFields(m.params) + ")" + PrintReturn(m.ret)
  }

  // ---------- no text has two readings ----------

  lemma {:induction false} NamePrefix(a: string, b: string, x: string, y: string)
    requires ';' !in a && ';' !in b
    requires a + ";" + x == b + ";" + y
    ensures a == b && x == y
    decreases |a|
  {
    if a == [] || b == [] {
      assert (a + ";" + x)[0] == (b + ";" + y)[0];
      assert (a + ";" + x)[1..] == (b + ";" + y)[1..];
    } else {
      assert (a + ";" + x)[0] == a[0] && (b + ";" + y)[0] == b[0];
      assert (a + ";" + x)[1..] == a[1..] + ";" + x;
      assert (b + ";" + y)[1..] == b[1..] + ";" + y;
      NamePrefix(a[1..], b[1..], x, y);
    }
  }

  /** No primitive type starts like a class or an array. */
  lemma StartsApart(leaf: Leaf, p: Primitive)
    ensures leaf.Object? ==> PrintLeaf(leaf)[0] == 'L'
    ensures Letter(p) != 'L' && Letter(p) != '[' && Letter(p) != ')' && Letter(p) != 'V' && Letter(p) != '\0'
  {
  }

  lemma SameStart(s: Leaf, t: Leaf)
    requires PrintLeaf(s)[0] == PrintLeaf(t)[0]
    ensures s.Base? || t.Base? ==> s == t
  {
    if s.Base? {
      StartsApart(t, s.p);
      if t.Base? {
        LettersAreBase(s.p, t.p);
      }
    } else if t.Base? {
      StartsApart(s, t.p);
    }
  }

  lemma {:induction false} FieldPrefixFree(s: FieldType, t: FieldType, x: string, y: string)
    requires ValidField(s) && ValidField(t)
    requires PrintField(s) + x == PrintField(t) + y
    ensures s == t && x == y
    decreases s.dims
  {
    var u, v := PrintField(s) + x, PrintField(t) + y;
    assert u[0] == v[0];
    if s.dims > 0 || t.dims > 0 {
      assert s.dims > 0 && t.dims > 0;
      var s', t' := s.(dims := s.dims - 1), t.(dims := t.dims - 1);
      assert u[1..] == PrintField(s') + x;
      assert v[1..] == PrintField(t') + y;
      FieldPrefixFree(s', t', x, y);
    } else if s.leaf.Base? {
      SameStart(s.leaf, t.leaf);
      assert u[1..] == x && v[1..] == y;
    } else {
      SameStart(s.leaf, t.leaf);
      assert u[1..] == s.leaf.name + ";" + x;
      assert v[1..] == t.leaf.name + ";" + y;
      NamePrefix(s.leaf.name, t.leaf.name, x, y);
    }
  }

  /** A field type never starts like the end of a parameter list. */
  lemma FieldStart(t: FieldType)
    requires ValidField(t)
    ensures PrintField(t)[0] != ')' && PrintField(t)[0] != 'V' && PrintField(t)[0] != '\0'
  {
  }

  lemma {:induction false} FieldsPrefixFree(s: seq<FieldType>, t: seq<FieldType>, x: string, y: string)
    requires ValidFields(s) && ValidFields(t)
    requires PrintFields(s) + ")" + x == PrintFields(t) + ")" + y
    ensures s == t && x == y
    decreases |s|
  {
    var u, v := PrintFields(s) + ")" + x, PrintFields(t) + ")" + y;
    if s != [] { FieldStart(s[0]); assert u[0] == PrintField(s[0])[0]; }
    if t != [] { FieldStart(t[0]); assert v[0] == PrintField(t[0])[0]; }
    if s == [] || t == [] {
      assert s == [] && t == [];
      assert u[1..] == x && v[1..] == y;
    } else {
      var u', v' := PrintFields(s[1..]) + ")" + x, PrintFields(t[1..]) + ")" + y;
      assert u == PrintField(s[0]) + u';
      assert v == PrintField(t[0]) + v';
      FieldPrefixFree(s[0], t[0], u', v');
      FieldsPrefixFree(s[1..], t[1..], x, y);
      assert s == [s[0]] + s[1..] && t == [t[0]] + t[1..];
    }
  }

  lemma ReturnPrefixFree(s: Option<FieldType>, t: Option<FieldType>, x: string, y: string)
    requires (s.Some? ==> ValidField(s.value)) && (t.Some? ==> ValidField(t.value))
    requires PrintReturn(s) + x == PrintReturn(t) + y
    ensures s == t && x == y
  {
    if s.Some? { FieldStart(s.value); }
    if t.Some? { FieldStart(t.value); }
    var p, q := PrintReturn(s) + x, PrintReturn(t) + y;
    assert p[0] == q[0];
    hide ValidField;
    if s.Some? {
      FieldPrefixFree(s.value, t.value, x, y);
    } else {
      assert p[1..] == x && q[1..] == y;
    }
  }

  /** Method descriptors are prefix-free, so no text has two readings. */
  lemma MethodPrefixFree(m: MethodType, n: MethodType, x: string, y: string)
    requires ValidMethod(m) && ValidMethod(n)
    requires PrintMethod(m) + x == PrintMethod(n) + y
    ensures m == n && x == y
  {
    hide ValidField; hide PrintFields; hide PrintReturn;
    var p, q := PrintReturn(m.ret) + x, PrintReturn(n.ret) + y;
    assert (PrintMethod(m) + x)[1..] == PrintFields(m.params) + ")" + p;
    assert (PrintMethod(n) + y)[1..] == PrintFields(n.params) + ")" + q;
    FieldsPrefixFree(m.params, n.params, p, q);
    ReturnPrefixFree(m.ret, n.ret, x, y);
  }
}

/** What the functions of Jvmparse.c compute. */
module DescriptorSpec {
  import opened DescriptorGrammar
  import opened Wrappers

  /** JVM_BASE_TYPE, JVM_OBJECT_TYPE and JVM_ARRAY_TYPE, the bits of jwFieldType. */
  datatype Flag = BASE | OBJECT | ARRAY

  /** The values of a _JVM_Field_Info. */
  datatype FieldVal = FieldVal(
    fieldType: set<Flag>, baseType: char, width: nat, dims: nat, name: Option<string>, nameLen: nat)

  const ZERO_FIELD := FieldVal({}, '\0', 0, 0, None, 0)

  const WIDTH_REF: nat := 1

  /** jwArrayDimension is an unsigned short. */
  const WORD: nat := 0x1_0000

  datatype FieldResult = FieldResult(ok: bool, pos: nat, field: FieldVal)

  datatype FieldsResult = FieldsResult(ok: bool, pos: nat, fields: seq<FieldVal>, count: nat)

  datatype Status = StatusOk | IncorrectMethod | ErrorInParameter

  datatype MethodResult = MethodResult(
    status: Status, pos: nat, params: seq<FieldVal>, count: nat, hasReturn: bool, ret: FieldVal)

  function BaseWidth(c: char): nat {
    if c == 'D' || c == 'J' then 2 else 1
  }

  lemma WidthOfLetter(p: Primitive)
    ensures BaseWidth(Letter(p)) == Words(p)
  {
  }

  /** The first semicolon at or after i, or the length of the text. */
  function Semicolon(text: string, i: nat): (j: nat)
    requires i <= |text|
    ensures i <= j <= |text|
    ensures forall k :: i <= k < j ==> text[k] != ';'
    ensures j < |text| ==> text[j] == ';'
    decreases |text| - i
  {
    if i == |text| || text[i] == ';' then i else Semicolon(text, i + 1)
  }

  /** The memory the parser may read: a C string in which the name scan from any 'L' stays inside. */
  ghost predicate Readable(text: string) {
    && text != []
    && (forall i :: 0 <= i < |text| ==> (text[i] == '\0' <==> i == |text| - 1))
    && (forall i :: 0 <= i < |text| && text[i] == 'L' ==>
          i + MAX_NAME < |text| || exists j :: i < j < |text| && text[j] == ';')
  }

  lemma SemicolonFound(text: string, i: nat)
    requires Readable(text) && i < |text| && text[i] == 'L'
    ensures Semicolon(text, i + 1) < |text| || i + MAX_NAME < |text|
    ensures Semicolon(text, i + 1) < |text| ==> Semicolon(text, i + 1) + 1 < |text|
  {
    assert text[|text| - 1] == '\0';
  }

  /** The name that starts at this 'L' ends soon enough for the scan. */
  predicate ScanFinds(text: string, i: nat)
    requires i < |text|
  {
    var j := Semicolon(text, i + 1);
    j < |text| && j - i <= MAX_NAME
  }

  /** JvmParseFieldDescriptor. A name scan that gives up leaves the cursor where it stopped, and the
      array test then looks there. */
  function ParseField(text: string, i: nat, f: FieldVal): (r: FieldResult)
    requires Readable(text) && i < |text|
    ensures r.pos < |text| && (r.ok ==> i < r.pos)
    decreases |text| - i
  {
    var c := text[i];
    if c == '\0' then FieldResult(false, i, f)
    else if IsBase(c) then
      FieldResult(true, i + 1, f.(fieldType := f.fieldType + {BASE}, baseType := c, width := BaseWidth(c)))
    else if c == 'L' && ScanFinds(text, i) then
      SemicolonFound(text, i);
      var j := Semicolon(text, i + 1);
      FieldResult(true, j + 1, f.(fieldType := f.fieldType + {OBJECT}, baseType := 'L',
                                  name := Some(text[i + 1..j]), nameLen := j - i - 1, width := WIDTH_REF))
    else
      SkipInside(text, i);
      var p := if c == 'L' then i + MAX_NAME else i;
      if text[p] == '[' then
        var r := ParseField(text, p + 1, f.(fieldType := f.fieldType + {ARRAY}, dims := (f.dims + 1) % WORD));
        if r.ok then r.(field := r.field.(width := WIDTH_REF)) else r
      else FieldResult(false, p, f)
  }

  lemma SkipInside(text: string, i: nat)
    requires Readable(text) && i < |text|
    ensures text[i] == 'L' && !ScanFinds(text, i) ==> i + MAX_NAME < |text|
  {
    if text[i] == 'L' {
      SemicolonFound(text, i);
    }
  }

  /** JvmParseParameterDescriptor. The count goes up before the parameter is parsed. */
  function ParseFields(text: string, i: nat): (r: FieldsResult)
    requires Readable(text) && i < |text|
    ensures r.pos < |text|
    ensures r.ok ==> text[r.pos] == ')' && r.count == |r.fields|
    ensures !r.ok ==> r.count == |r.fields| + 1
    decreases |text| - i
  {
    if text[i] == ')' then FieldsResult(true, i, [], 0)
    else
      var f := ParseField(text, i, ZERO_FIELD);
      if !f.ok then FieldsResult(false, f.pos, [], 1)
      else
        var rest := ParseFields(text, f.pos);
        rest.(fields := [f.field] + rest.fields, count := rest.count + 1)
  }

  lemma NoMoreFields(text: string, i: nat)
    requires Readable(text) && i < |text| && text[i] == ')'
    ensures ParseFields(text, i) == FieldsResult(true, i, [], 0)
  {
  }

  lemma NextField(text: string, i: nat)
    requires Readable(text) && i < |text| && text[i] != ')'
    ensures var f := ParseField(text, i, ZERO_FIELD);
      if !f.ok then ParseFields(text, i) == FieldsResult(false, f.pos, [], 1)
      else
        var rest := ParseFields(text, f.pos);
        ParseFields(text, i) == FieldsResult(rest.ok, rest.pos, [f.field] + rest.fields, rest.count + 1)
  {
    hide ParseField, Readable;
  }

  /** JvmParseMethodDescriptor on a zeroed _JVM_Method_Info. A 'V' is not consumed. */
  function ParseMethod(text: string, i: nat): (r: MethodResult)
    requires Readable(text) && i < |text|
  {
    if text[i] != '(' then MethodResult(IncorrectMethod, i, [], 0, false, ZERO_FIELD)
    else
      var ps := ParseFields(text, i + 1);
      if !ps.ok then MethodResult(ErrorInParameter, ps.pos, ps.fields, ps.count, false, ZERO_FIELD)
      else if text[ps.pos + 1] == 'V' then
        MethodResult(StatusOk, ps.pos + 1, ps.fields, ps.count, false, ZERO_FIELD)
      else
        var f := ParseField(text, ps.pos + 1, ZERO_FIELD);
        MethodResult(if f.ok then StatusOk else IncorrectMethod, f.pos, ps.fields, ps.count, true, f.field)
  }

  // ---------- what a type means to the parser ----------

  /** The field record of type t, for a record f that already holds f.dims brackets. */
  function Onto(f: FieldVal, t: FieldType): FieldVal {
    var leaf := match t.leaf
      case Base(p) => f.(fieldType := f.fieldType + {BASE}, baseType := Letter(p), width := Words(p))
      case Object(name) => f.(fieldType := f.fieldType + {OBJECT}, baseType := 'L', width := WIDTH_REF,
                              name := Some(name), nameLen := |name|);
    if t.dims == 0 then leaf
    else leaf.(fieldType := leaf.fieldType + {ARRAY}, width := WIDTH_REF, dims := (f.dims + t.dims) % WORD)
  }

  function Record(t: FieldType): FieldVal {
    Onto(ZERO_FIELD, t)
  }

  function Records(ts: seq<FieldType>): (fs: seq<FieldVal>)
    ensures |fs| == |ts|
  {
    if ts == [] then [] else [Record(ts[0])] + Records(ts[1..])
  }

  /** The end of a method descriptor in the text, counting the 'V' that the parser does not consume. */
  function EndOf(r: MethodResult): nat {
    if r.hasReturn then r.pos else r.pos + 1
  }
}
