/**
 The V14 portable type table (`types/metadataV14_portable.go`) as the registry factory reads
 it: type definitions that refer to each other by lookup id, in any cyclic way.
 */
module TypeTable {
  import opened Bytes
  import opened Options

  /** `Si1Field`. */
  datatype FieldDef = FieldDef(name: Option<string>, typeName: Option<string>, ty: int)

  /** `Si1Variant`. */
  datatype VariantItem = VariantItem(name: string, index: byte, fields: seq<FieldDef>)

  /** `Si1TypeDef`, with the one kind its decoder sets. A tuple without items decodes to a nil
      slice, which is told apart from an empty one. */
  datatype TypeDef =
    | DefComposite(fields: seq<FieldDef>)
    | DefVariant(variants: seq<VariantItem>)
    | DefSequence(item: int)
    | DefArray(len: nat, item: int)
    | DefTuple(items: Option<seq<int>>)
    | DefPrimitive(code: nat)
    | DefCompact(inner: int)
    | DefBitSequence(store: int, order: int)
    | DefHistoric

  /** `Si1Type`. */
  datatype TypeInfo = TypeInfo(path: seq<string>, def: TypeDef)

  /** `EfficientLookup`. */
  type Table = map<int, TypeInfo>

  // ------------------------------------------------------------------ names

  function Decimal(n: nat): string {
    var digit := ["0123456789"[n % 10]];
    if n < 10 then digit else Decimal(n / 10) + digit
  }

  function DecimalInt(i: int): string {
    if i < 0 then "-" + Decimal(-i) else Decimal(i)
  }

  function Join(parts: seq<string>): string {
    if parts == [] then ""
    else if |parts| == 1 then parts[0]
    else parts[0] + "." + Join(parts[1..])
  }

  /** `getFieldName`. */
  function FieldName(f: FieldDef): string {
    if f.name.Some? then f.name.value
    else if f.typeName.Some? then f.typeName.value
    else "lookup_index_" + DecimalInt(f.ty)
  }

  /** `getFullFieldName`. */
  function FullFieldName(f: FieldDef, t: TypeInfo): string {
    var path := Join(t.path);
    if path != "" then path + "." + FieldName(f) else FieldName(f)
  }

  function TupleItemName(i: nat): string {
    "tuple_item_" + Decimal(i)
  }

  /** The value of a string of digits. */
  function DigitsValue(s: string): nat {
    if s == "" then 0
    else
      var c := s[|s| - 1];
      10 * DigitsValue(s[..|s| - 1]) + if '0' <= c <= '9' then c as int - '0' as int else 0
  }

  /** The numeral of a number: digits only, none of them a leading zero. */
  predicate Numeral(s: string, n: nat) {
    && s != "" && DigitsValue(s) == n && (s[0] == '0' ==> |s| == 1)
    && forall i :: 0 <= i < |s| ==> '0' <= s[i] <= '9'
  }

  lemma {:induction false} DecimalIs(n: nat)
    ensures Numeral(Decimal(n), n)
  {
    var digits, d := "0123456789", n % 10;
    assert forall k :: 0 <= k < 10 ==> digits[k] as int == '0' as int + k;
    assert '0' <= digits[d] <= '9' && digits[d] as int - '0' as int == d;
    var s := Decimal(n);
    if n >= 10 {
      DecimalIs(n / 10);
      assert s[..|s| - 1] == Decimal(n / 10);
      if s[0] == '0' {
        assert Decimal(n / 10)[0] == '0';
        assert DigitsValue(Decimal(n / 10)) == n / 10;
        ZeroIs(Decimal(n / 10));
      }
    } else {
      assert s[..0] == "";
    }
  }

  lemma ZeroIs(s: string)
    requires |s| == 1 && s[0] == '0'
    ensures DigitsValue(s) == 0
  {
    assert s[..0] == "";
  }

  /** The entries of a path with dots between them. */
  predicate Dotted(path: seq<string>, s: string) {
    if path == [] then s == ""
    else if |path| == 1 then s == path[0]
    else
      var n := |path| - 1;
      |s| > |path[n]| && s == s[..|s| - |path[n]| - 1] + "." + path[n] && Dotted(path[..n], s[..|s| - |path[n]| - 1])
  }

  /** The own name of a field, without the path of its type. */
  predicate OwnName(f: FieldDef, s: string) {
    match (f.name, f.typeName)
    case (Some(name), _) => s == name
    case (None, Some(name)) => s == name
    case (None, None) =>
      var digits := if f.ty < 0 then -f.ty else f.ty;
      var prefix := if f.ty < 0 then "lookup_index_-" else "lookup_index_";
      |prefix| <= |s| && s[..|prefix|] == prefix && Numeral(s[|prefix|..], digits)
  }

  lemma {:induction false} JoinIsDotted(path: seq<string>)
    ensures Dotted(path, Join(path))
    decreases |path|
  {
    if |path| > 1 {
      var n := |path| - 1;
      JoinEnds(path);
      var s, init := Join(path), Join(path[..n]);
      assert s == init + "." + path[n];
      assert s[..|s| - |path[n]| - 1] == init;
      JoinIsDotted(path[..n]);
    }
  }

  lemma {:induction false} JoinEnds(path: seq<string>)
    requires |path| > 1
    ensures Join(path) == Join(path[..|path| - 1]) + "." + path[|path| - 1]
    decreases |path|
  {
    var n := |path| - 1;
    if n == 1 {
      assert path[1..] == [path[1]] && path[..1] == [path[0]];
    } else {
      JoinEnds(path[1..]);
      assert path[1..][..n - 1] == path[..n][1..];
    }
  }

  lemma FieldNameIsOwn(f: FieldDef)
    ensures OwnName(f, FieldName(f))
  {
    if f.name.None? && f.typeName.None? {
      var prefix := if f.ty < 0 then "lookup_index_-" else "lookup_index_";
      var n := if f.ty < 0 then -f.ty else f.ty;
      DecimalIs(n);
      hide Decimal, Numeral;
      assert FieldName(f) == prefix + Decimal(n);
      assert FieldName(f)[|prefix|..] == Decimal(n);
    }
  }

  predicate NameWith(name: string, path: string, own: string) {
    name == if path == "" then own else path + "." + own
  }

  /** The full name of a field: the path of its type with dots, a dot, and the field's own name; the own
      name alone when there is no path. */
  lemma FullNameIs(f: FieldDef, t: TypeInfo)
    ensures exists path, own :: Dotted(t.path, path) && OwnName(f, own) && NameWith(FullFieldName(f, t), path, own)
  {
    JoinIsDotted(t.path);
    FieldNameIsOwn(f);
    hide Join, FieldName;
    assert NameWith(FullFieldName(f, t), Join(t.path), FieldName(f));
  }

  lemma TupleNameIs(i: nat)
    ensures var name := TupleItemName(i); |name| > 11 && name[..11] == "tuple_item_" && Numeral(name[11..], i)
  {
    DecimalIs(i);
    hide Decimal, Numeral;
    assert TupleItemName(i)[11..] == Decimal(i);
  }

  // ------------------------------------------------------------------ variants

  /** The variant a tag byte selects: the table is filled in order, so the last one with the
      index wins. */
  function LastVariant(vs: seq<VariantItem>, b: byte): (r: Option<VariantItem>)
    ensures r.Some? ==> r.value in vs && r.value.index == b
    ensures r.None? ==> forall v :: v in vs ==> v.index != b
  {
    if vs == [] then None
    else if vs[|vs| - 1].index == b then Some(vs[|vs| - 1])
    else LastVariant(vs[..|vs| - 1], b)
  }

  /** The i-th variant is the last with the index. */
  ghost predicate LastAt(vs: seq<VariantItem>, b: byte, i: nat) {
    i < |vs| && vs[i].index == b && forall j :: i < j < |vs| ==> vs[j].index != b
  }

  lemma LastAtGrows(vs: seq<VariantItem>, b: byte, i: nat)
    requires vs != [] && LastAt(vs[..|vs| - 1], b, i) && vs[|vs| - 1].index != b
    ensures LastAt(vs, b, i)
  {
    assert forall j :: 0 <= j < |vs| - 1 ==> vs[j] == vs[..|vs| - 1][j];
  }

  /** It is the last one with the index, and there is none exactly when no variant has it. */
  lemma {:induction false} LastVariantIsLast(vs: seq<VariantItem>, b: byte)
    ensures match LastVariant(vs, b)
            case Some(v) => exists i: nat :: LastAt(vs, b, i) && vs[i] == v
            case None => forall v :: v in vs ==> v.index != b
  {
    if vs != [] {
      var n := |vs| - 1;
      if vs[n].index == b {
        assert LastAt(vs, b, n);
      } else {
        LastVariantIsLast(vs[..n], b);
        if LastVariant(vs[..n], b).Some? {
          var i: nat :| LastAt(vs[..n], b, i) && vs[..n][i] == LastVariant(vs[..n], b).value;
          LastAtGrows(vs, b, i);
        }
      }
    }
  }
}
