/** JSON values, and the two ways Go's encoding/json reads an object: into a map, where keys
    count exactly, and into a struct, where a key also matches a field that differs by case. */
module Json {
  import opened Text

  datatype Value =
    | Null
    | Bool(b: bool)
    | Num(n: real)
    | Str(s: string)
    | Arr(items: seq<Value>)
    | Obj(fields: seq<Field>)

  datatype Field = Field(key: string, value: Value)

  /** `json.Unmarshal` into a map: the last of several equal keys wins. */
  function ToMap(fields: seq<Field>): map<string, Value> {
    if fields == [] then map[]
    else
      var last := fields[|fields| - 1];
      ToMap(fields[..|fields| - 1])[last.key := last.value]
  }

  /** Unicode simple folding, as far as it can reach the ASCII field names used here: letters
      lose their case, the long s folds to s and the Kelvin sign to k. */
  function FoldChar(c: char): char {
    if 'A' <= c <= 'Z' then c + 32 as char
    else if c == '\U{017F}' then 's'
    else if c == '\U{212A}' then 'k'
    else c
  }

  function Fold(s: string): string {
    seq(|s|, i requires 0 <= i < |s| => FoldChar(s[i]))
  }

  datatype FieldType = BoolPointer | Text | TextList | NumberPointer | IntPointer

  predicate TypeOk(t: FieldType, v: Value) {
    v.Null? ||
    match t
    case BoolPointer => v.Bool?
    case Text => v.Str?
    case TextList => v.Arr? && forall x :: x in v.items ==> x.Str? || x.Null?
    case NumberPointer => v.Num?
    case IntPointer => v.Num? && v.n == v.n.Floor as real
  }

  /** `strictJSON` into a struct with these fields: an object, no unknown field, no type error. */
  predicate Strict(v: Value, schema: map<string, FieldType>) {
    v.Obj? && forall f :: f in v.fields ==> Fold(f.key) in schema && TypeOk(schema[Fold(f.key)], f.value)
  }

  /** A string field of the struct; null leaves it as it was. */
  function TextField(fields: seq<Field>, name: string): string {
    if fields == [] then ""
    else
      var last := fields[|fields| - 1];
      if Fold(last.key) == name && last.value.Str? then last.value.s
      else TextField(fields[..|fields| - 1], name)
  }

  /** A pointer or slice field of the struct; null sets it to nil. */
  function PointerField(fields: seq<Field>, name: string): Option<Value> {
    if fields == [] then None
    else
      var last := fields[|fields| - 1];
      if Fold(last.key) == name then (if last.value.Null? then None else Some(last.value))
      else PointerField(fields[..|fields| - 1], name)
  }

  function TextOf(v: Value): string {
    if v.Str? then v.s else ""
  }

  /** A `[]string` read from an array: anything but a string leaves an empty element. */
  function Texts(items: seq<Value>): (r: seq<string>)
    ensures |r| == |items|
  {
    seq(|items|, i requires 0 <= i < |items| => TextOf(items[i]))
  }

  function StrArr(texts: seq<string>): Value {
    Arr(seq(|texts|, i requires 0 <= i < |texts| => Str(texts[i])))
  }

  /** `json.Unmarshal(m[key], &s)` with its error ignored. */
  function TextAt(m: map<string, Value>, key: string): string {
    if key in m then TextOf(m[key]) else ""
  }

  /** `json.Unmarshal(m[key], &list)` with its error ignored; None is a nil slice. */
  function ListAt(m: map<string, Value>, key: string): Option<seq<string>> {
    if key in m && m[key].Arr? then Some(Texts(m[key].items)) else None
  }

  /** No key is a mere case variant of `name`. */
  predicate NoVariant(fields: seq<Field>, name: string) {
    forall f :: f in fields && Fold(f.key) == Fold(name) ==> f.key == name
  }

  lemma TextsOfStrArr(texts: seq<string>)
    ensures Texts(StrArr(texts).items) == texts
  {
    assert |Texts(StrArr(texts).items)| == |texts|;
  }

  lemma {:induction false} ToMapHasOnlyFields(fields: seq<Field>, key: string)
    requires key in ToMap(fields)
    ensures Field(key, ToMap(fields)[key]) in fields
  {
    var front := fields[..|fields| - 1];
    if fields[|fields| - 1].key != key {
      ToMapHasOnlyFields(front, key);
      assert Field(key, ToMap(front)[key]) in fields;
    } else {
      assert fields[|fields| - 1] in fields;
    }
  }

  /** Without case variants, and with no null, both readings of a text field agree. */
  lemma {:induction false} TextReadingsAgree(fields: seq<Field>, name: string)
    requires Fold(name) == name && NoVariant(fields, name)
    requires forall f :: f in fields && f.key == name ==> f.value.Str? || f.value.Null?
    requires name in ToMap(fields) ==> ToMap(fields)[name].Str?
    ensures TextField(fields, name) == TextAt(ToMap(fields), name)
  {
    if fields != [] {
      var last := fields[|fields| - 1];
      var front := fields[..|fields| - 1];
      assert last in fields;
      if last.key != name {
        assert Fold(last.key) != name;
        TextReadingsAgree(front, name);
      }
    }
  }

  /** Without case variants both readings of a list field agree. */
  lemma {:induction false} ListReadingsAgree(fields: seq<Field>, name: string)
    requires Fold(name) == name && NoVariant(fields, name)
    ensures PointerField(fields, name) ==
            (if name in ToMap(fields) && !ToMap(fields)[name].Null? then Some(ToMap(fields)[name]) else None)
  {
    if fields != [] {
      var last := fields[|fields| - 1];
      assert last in fields;
      if last.key != name {
        assert Fold(last.key) != name;
        ListReadingsAgree(fields[..|fields| - 1], name);
      }
    }
  }
}
