/** The functions of Jvmparse.c: a cursor moved in place and records filled through pointers. */
module DescriptorParser {
  import opened DescriptorGrammar
  import opened DescriptorSpec
  import opened Wrappers

  /** The byte stream pointer the functions advance. */
  class Cursor {
    const text: string
    var pos: nat

    constructor (text: string, pos: nat)
      ensures this.text == text && this.pos == pos
    {
      this.text, this.pos := text, pos;
    }

    ghost predicate Valid()
      reads this
    {
      Readable(text) && pos < |text|
    }
  }

  /** _JVM_Field_Info */
  class FieldInfo {
    var fieldType: set<Flag>
    var baseType: char
    var width: nat
    var dims: nat
    var name: Option<string>
    var nameLen: nat

    constructor ()
      ensures Val() == ZERO_FIELD
    {
      fieldType, baseType, width, dims, name, nameLen := {}, '\0', 0, 0, None, 0;
    }

    function Val(): FieldVal
      reads this
    {
      FieldVal(fieldType, baseType, width, dims, name, nameLen)
    }
  }

  /** _JVM_Method_Info. Every parameter cell is an unshared copy of a record, so the vector holds values. */
  class MethodInfo {
    var params: seq<FieldVal>
    var paramCount: nat
    var hasReturn: bool
    const returnField: FieldInfo
    var status: Status
    var paramsWidth: nat

    constructor ()
      ensures params == [] && paramCount == 0 && returnField.Val() == ZERO_FIELD
      ensures fresh(returnField)
    {
      params, paramCount, hasReturn, status, paramsWidth := [], 0, false, StatusOk, 0;
      returnField := new FieldInfo();
    }
  }

  const BASE_SIZES: seq<nat> := [1, 1, 2, 1, 1, 2, 1, 1]

  /** IsJvmBaseType: searches the table of base types from its end. */
  method IsJvmBaseType(cursor: Cursor) returns (found: bool, baseType: char, width: nat)
    requires cursor.Valid()
    modifies cursor
    ensures cursor.Valid()
    ensures found <==> exists p :: Letter(p) == cursor.text[old(cursor.pos)]
    ensures found ==> cursor.pos == old(cursor.pos) + 1 && baseType == cursor.text[old(cursor.pos)]
    ensures found ==> exists p :: Letter(p) == baseType && width == Words(p)
    ensures found <==> IsBase(cursor.text[old(cursor.pos)])
    ensures found ==> width == BaseWidth(baseType)
    ensures !found ==> cursor.pos == old(cursor.pos)
  {
    found, baseType, width := false, '\0', 0;
    var n := |BASE_TYPES|;
    var c := cursor.text[cursor.pos];
    Letters(c);
    while n != 0
      invariant 0 <= n <= |BASE_TYPES|
      invariant cursor.pos == old(cursor.pos) && cursor.Valid()
      invariant forall k :: n <= k < |BASE_TYPES| ==> BASE_TYPES[k] != c
    {
      n := n - 1;
      if BASE_TYPES[n] == c {
        ghost var p := BaseIsLetter(c);
        WidthOfLetter(p);
        cursor.pos := cursor.pos + 1;
        return true, c, BASE_SIZES[n];
      }
    }
  }

  /** IsJvmObjectType: a scan that reaches MAX_NAME characters fails with the cursor left where it is. */
  method IsJvmObjectType(cursor: Cursor) returns (found: bool, name: string, nameLen: nat)
    requires cursor.Valid()
    modifies cursor
    ensures cursor.Valid()
    ensures var i := old(cursor.pos);
      && (found <==> cursor.text[i] == 'L' && ScanFinds(cursor.text, i))
      && (found ==> var j := Semicolon(cursor.text, i + 1);
                    cursor.pos == j + 1 && name == cursor.text[i + 1..j] && nameLen == j - i)
      && (!found ==> cursor.pos == if cursor.text[i] == 'L' then i + MAX_NAME else i)
  {
    found, name, nameLen := false, "", 0;
    var begin := cursor.pos;
    if cursor.text[cursor.pos] != 'L' {
      return;
    }
    SemicolonFound(cursor.text, begin);
    var stop := Semicolon(cursor.text, begin + 1);
    var len := 1;
    while len <= MAX_NAME
      invariant 1 <= len <= MAX_NAME + 1
      invariant cursor.pos == begin + len - 1 && cursor.Valid()
      invariant begin + len - 1 < stop
      decreases MAX_NAME - len
    {
      cursor.pos := cursor.pos + 1;
      if cursor.text[cursor.pos] == ';' {
        break;
      }
      len := len + 1;
    }
    if len > MAX_NAME {
      return false, "", len;
    }
    nameLen := cursor.pos - begin;
    name := cursor.text[begin + 1..begin + nameLen];
    cursor.pos := cursor.pos + 1;
    found := true;
  }

  method IsJvmArrayType(cursor: Cursor) returns (found: bool)
    requires cursor.Valid()
    modifies cursor
    ensures cursor.Valid()
    ensures found <==> cursor.text[old(cursor.pos)] == '['
    ensures cursor.pos == if found then old(cursor.pos) + 1 else old(cursor.pos)
  {
    found := cursor.text[cursor.pos] == '[';
    if found {
      cursor.pos := cursor.pos + 1;
    }
  }

  lemma EndStep(text: string, i: nat, f: FieldVal)
    requires Readable(text) && i < |text| && text[i] == '\0'
    ensures ParseField(text, i, f) == FieldResult(false, i, f)
  {
  }

  lemma BaseStep(text: string, i: nat, f: FieldVal)
    requires Readable(text) && i < |text| && text[i] != '\0' && IsBase(text[i])
    ensures ParseField(text, i, f)
      == FieldResult(true, i + 1, f.(fieldType := f.fieldType + {BASE}, baseType := text[i], width := BaseWidth(text[i])))
  {
    hide Readable, BaseWidth, ScanFinds;
  }

  lemma ObjectStep(text: string, i: nat, f: FieldVal)
    requires Readable(text) && i < |text| && text[i] == 'L' && ScanFinds(text, i)
    ensures Semicolon(text, i + 1) - i <= MAX_NAME
    ensures var j := Semicolon(text, i + 1);
      ParseField(text, i, f)
      == FieldResult(true, j + 1, f.(fieldType := f.fieldType + {OBJECT}, baseType := 'L', name := Some(text[i + 1..j]),
                                     nameLen := j - i - 1, width := WIDTH_REF))
  {
    hide Readable, Semicolon;
  }

  lemma ArrayStep(text: string, i: nat, f: FieldVal)
    requires Readable(text) && i < |text| && text[i] != '\0' && !IsBase(text[i])
    requires !(text[i] == 'L' && ScanFinds(text, i))
    ensures (if text[i] == 'L' then i + MAX_NAME else i) < |text|
    ensures var p := if text[i] == 'L' then i + MAX_NAME else i;
      if text[p] != '[' then ParseField(text, i, f) == FieldResult(false, p, f)
      else
        && p + 1 < |text|
        && var r := ParseField(text, p + 1, f.(fieldType := f.fieldType + {ARRAY}, dims := (f.dims + 1) % WORD));
           ParseField(text, i, f) == if r.ok then r.(field := r.field.(width := WIDTH_REF)) else r
  {
    hide IsBase, ScanFinds;
    SkipInside(text, i);
  }

  /** JvmParseFieldDescriptor */
  method ParseFieldDescriptor(cursor: Cursor, field: FieldInfo) returns (ok: bool)
    requires cursor.Valid()
    modifies cursor, field
    ensures cursor.Valid()
    ensures FieldResult(ok, cursor.pos, field.Val()) == old(ParseField(cursor.text, cursor.pos, field.Val()))
    decreases |cursor.text| - cursor.pos
  {
    hide Readable, Semicolon, ParseField, ScanFinds, IsBase, BaseWidth;
    ghost var text, i, f := cursor.text, cursor.pos, field.Val();
    if cursor.text[cursor.pos] == '\0' {
      EndStep(text, i, f);
      return false;
    }
    var found, baseType, width := IsJvmBaseType(cursor);
    if found {
      BaseStep(text, i, f);
      field.width := width;
      field.fieldType := field.fieldType + {BASE};
      field.baseType := baseType;
      return true;
    }
    var name, nameLen;
    found, name, nameLen := IsJvmObjectType(cursor);
    if found {
      ObjectStep(text, i, f);
      field.fieldType := field.fieldType + {OBJECT};
      field.baseType := 'L';
      field.name := Some(name);
      field.nameLen := |name|;
      if nameLen > MAX_NAME {
        return false;
      }
    } else {
      ArrayStep(text, i, f);
      found := IsJvmArrayType(cursor);
      if found {
        field.fieldType := field.fieldType + {ARRAY};
        field.dims := (field.dims + 1) % WORD;
        ok := ParseFieldDescriptor(cursor, field);
        if !ok {
          return false;
        }
      } else {
        return false;
      }
    }
    field.width := WIDTH_REF;
    return true;
  }

  /** JvmParseParameterDescriptor: each parameter found is copied to the end of the grown vector. */
  method ParseParameterDescriptor(cursor: Cursor, m: MethodInfo) returns (status: Status)
    requires cursor.Valid() && m.paramCount == |m.params|
    modifies cursor, m`params, m`paramCount
    ensures cursor.Valid()
    ensures var r := old(ParseFields(cursor.text, cursor.pos));
      && status == (if r.ok then StatusOk else ErrorInParameter)
      && cursor.pos == r.pos
      && m.paramCount == old(m.paramCount) + r.count
      && m.params == old(m.params) + r.fields
    decreases |cursor.text| - cursor.pos
  {
    hide ParseFields, ParseField, Readable, Semicolon;
    ghost var text, i := cursor.text, cursor.pos;
    if cursor.text[cursor.pos] == ')' {
      NoMoreFields(text, i);
      return StatusOk;
    }
    NextField(text, i);
    m.paramCount := m.paramCount + 1;
    var field := new FieldInfo();
    var ok := ParseFieldDescriptor(cursor, field);
    if !ok {
      return ErrorInParameter;
    }
    m.params := m.params + [field.Val()];
    status := ParseParameterDescriptor(cursor, m);
  }

  /** JvmParseReturnDescriptor: 'V' is not consumed. */
  method ParseReturnDescriptor(cursor: Cursor, field: FieldInfo) returns (ok: bool, exists': bool)
    requires cursor.Valid()
    modifies cursor, field
    ensures cursor.Valid()
    ensures exists' <==> cursor.text[old(cursor.pos)] != 'V'
    ensures !exists' ==> ok && cursor.pos == old(cursor.pos) && field.Val() == old(field.Val())
    ensures exists' ==>
      FieldResult(ok, cursor.pos, field.Val()) == old(ParseField(cursor.text, cursor.pos, field.Val()))
  {
    if cursor.text[cursor.pos] == 'V' {
      return true, false;
    }
    ok := ParseFieldDescriptor(cursor, field);
    exists' := true;
  }

  function SumWidths(vals: seq<FieldVal>): nat {
    if vals == [] then 0 else vals[0].width + SumWidths(vals[1..])
  }

  /** JvmStoreParametersSize: adds the widths up from the last parameter to the first. */
  method StoreParametersSize(m: MethodInfo)
    requires m.paramCount == |m.params|
    modifies m`paramsWidth
    ensures m.paramsWidth == SumWidths(m.params)
  {
    m.paramsWidth := 0;
    var n := m.paramCount;
    while n != 0
      invariant 0 <= n <= |m.params| == m.paramCount
      invariant m.paramsWidth == SumWidths(m.params[n..])
    {
      n := n - 1;
      m.paramsWidth := m.paramsWidth + m.params[n].width;
      assert m.params[n..] == [m.params[n]] + m.params[n + 1..];
    }
    assert m.params[0..] == m.params;
  }

  lemma NotLast(text: string, i: nat)
    requires Readable(text) && i < |text| && text[i] != '\0'
    ensures i + 1 < |text|
  {
  }

  /** JvmParseMethodDescriptor on a zeroed record. */
  method ParseMethodDescriptor(cursor: Cursor, m: MethodInfo) returns (ok: bool)
    requires cursor.Valid()
    requires m.params == [] && m.paramCount == 0 && m.returnField.Val() == ZERO_FIELD
    modifies cursor, m, m.returnField
    ensures cursor.Valid()
    ensures var r := ParseMethod(cursor.text, old(cursor.pos));
      && ok == r.status.StatusOk? && m.status == r.status && cursor.pos == r.pos
      && m.params == r.params && m.paramCount == r.count
      && (ok ==> m.hasReturn == r.hasReturn && m.returnField.Val() == r.ret
                 && m.paramsWidth == SumWidths(r.params))
  {
    hide ParseFields; hide ParseField; hide Readable; hide Semicolon; hide SumWidths;
    m.status := IncorrectMethod;
    if cursor.text[cursor.pos] != '(' {
      return false;
    }
    NotLast(cursor.text, cursor.pos);
    cursor.pos := cursor.pos + 1;
    var status := ParseParameterDescriptor(cursor, m);
    if status != StatusOk {
      m.status := status;
      return false;
    }
    if cursor.text[cursor.pos] != ')' {
      return false;
    }
    NotLast(cursor.text, cursor.pos);
    cursor.pos := cursor.pos + 1;
    var good, there := ParseReturnDescriptor(cursor, m.returnField);
    m.hasReturn := there;
    if !good {
      return false;
    }
    m.status := StatusOk;
    StoreParametersSize(m);
    return true;
  }
}
