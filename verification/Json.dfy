/** JSON values as the audit log hashes them: objects keep their keys in insertion order, and
    canonicalization sorts the keys of every object at every depth and writes the value
    compactly, nulls included (backend/src/main/java/com/claimguard/audit/CanonicalJson.java:17-51). */
module Json {
  import opened Sorting

  datatype Json =
    | Null
    | Bool(b: bool)
    | Number(lexeme: string)
    | Text(s: string)
    | Array(items: seq<Json>)
    | Object(fields: seq<Field>)

  datatype Field = Field(key: string, value: Json)

  predicate NumberChar(c: char) {
    '0' <= c <= '9' || c == '-' || c == '+' || c == '.' || c == 'e' || c == 'E'
  }

  predicate NumberLexeme(s: string) {
    s != "" && forall i :: 0 <= i < |s| ==> NumberChar(s[i])
  }

  predicate DistinctKeys(fields: seq<Field>) {
    forall i, j :: 0 <= i < j < |fields| ==> fields[i].key != fields[j].key
  }

  /** Numbers carry a number's characters and no object repeats a key. */
  predicate WellFormed(j: Json) {
    match j
    case Number(lexeme) => NumberLexeme(lexeme)
    case Array(items) => forall i :: 0 <= i < |items| ==> WellFormed(items[i])
    case Object(fields) => DistinctKeys(fields) && forall i :: 0 <= i < |fields| ==> WellFormed(fields[i].value)
    case _ => true
  }

  /** What parsing a JSON document yields. */
  type Doc = j: Json | WellFormed(j) witness Null

  // ----- writing -----

  function HexDigit(n: int): char
    requires 0 <= n < 16
  {
    "0123456789ABCDEF"[n]
  }

  function Escape(c: char): (e: string)
    ensures e != "" && e[0] != '"'
  {
    if c == '"' then "\\\""
    else if c == '\\' then "\\\\"
    else if c == '\n' then "\\n"
    else if c == '\r' then "\\r"
    else if c == '\t' then "\\t"
    else if c as int == 8 then "\\b"
    else if c as int == 12 then "\\f"
    else if c as int < 32 then "\\u00" + [HexDigit(c as int / 16), HexDigit(c as int % 16)]
    else [c]
  }

  function EscapeAll(s: string): string {
    if s == "" then "" else Escape(s[0]) + EscapeAll(s[1..])
  }

  function Quote(s: string): string {
    "\"" + EscapeAll(s) + "\""
  }

  /** Compact text, keys in the order the value lists them. */
  function Write(j: Json): string {
    match j
    case Null => "null"
    case Bool(b) => if b then "true" else "false"
    case Number(lexeme) => lexeme
    case Text(s) => Quote(s)
    case Array(items) => "[" + WriteItems(items)
    case Object(fields) => "{" + WriteFields(fields)
  }

  function WriteItems(items: seq<Json>): string {
    if items == [] then "]" else Write(items[0]) + MoreItems(items[1..])
  }

  function WriteFields(fields: seq<Field>): string {
    if fields == [] then "}" else WriteField(fields[0]) + MoreFields(fields[1..])
  }

  function WriteField(f: Field): string {
    Quote(f.key) + ":" + Write(f.value)
  }

  function MoreItems(items: seq<Json>): string {
    if items == [] then "]" else "," + Write(items[0]) + MoreItems(items[1..])
  }

  function MoreFields(fields: seq<Field>): string {
    if fields == [] then "}" else "," + WriteField(fields[0]) + MoreFields(fields[1..])
  }

  // ----- canonical form -----

  predicate KeyLe(f: Field, g: Field) { StringLe(f.key, g.key) }

  /** Sorts the keys of every object, at every depth. */
  function SortKeys(j: Json): Json {
    match j
    case Array(items) => Array(SortItems(items))
    case Object(fields) => Object(Sort(SortFields(fields), KeyLe))
    case _ => j
  }

  function SortItems(items: seq<Json>): (s: seq<Json>)
    ensures |s| == |items| && forall i :: 0 <= i < |s| ==> s[i] == SortKeys(items[i])
  {
    if items == [] then [] else [SortKeys(items[0])] + SortItems(items[1..])
  }

  function SortFields(fields: seq<Field>): (s: seq<Field>)
    ensures |s| == |fields|
    ensures forall i :: 0 <= i < |s| ==> s[i] == Field(fields[i].key, SortKeys(fields[i].value))
  {
    if fields == [] then []
    else [Field(fields[0].key, SortKeys(fields[0].value))] + SortFields(fields[1..])
  }

  function Canonicalize(j: Json): string { Write(SortKeys(j)) }

  // ----- equality up to key order -----

  predicate HasKey(fields: seq<Field>, key: string) {
    exists i :: 0 <= i < |fields| && fields[i].key == key
  }

  /** The same value up to the order of keys, at every depth. */
  ghost predicate Same(a: Json, b: Json) {
    match a
    case Array(items) =>
      b.Array? && |items| == |b.items| && forall i :: 0 <= i < |items| ==> Same(items[i], b.items[i])
    case Object(fields) =>
      && b.Object?
      && (forall i :: 0 <= i < |fields| ==> HasKey(b.fields, fields[i].key))
      && (forall j :: 0 <= j < |b.fields| ==> HasKey(fields, b.fields[j].key))
      && (forall i, j :: 0 <= i < |fields| && 0 <= j < |b.fields| && fields[i].key == b.fields[j].key
            ==> Same(fields[i].value, b.fields[j].value))
    case _ => a == b
  }

  lemma KeyOrder()
    ensures Total(KeyLe)
  {
    StringOrder();
  }

  lemma TiesAreEqual(fields: seq<Field>)
    requires DistinctKeys(fields)
    ensures forall f, g :: f in fields && g in fields && KeyLe(f, g) && KeyLe(g, f) ==> f == g
  {
    forall f, g | f in fields && g in fields && KeyLe(f, g) && KeyLe(g, f) ensures f == g {
      StringLeTotal(f.key, g.key);
    }
  }

  lemma DistinctMeansOnce(fields: seq<Field>)
    requires DistinctKeys(fields)
    ensures forall f :: f in fields ==> multiset(fields)[f] == 1
  {
    if fields != [] {
      assert fields == [fields[0]] + fields[1..];
      DistinctMeansOnce(fields[1..]);
      assert fields[0] !in fields[1..];
      assert multiset(fields) == multiset{fields[0]} + multiset(fields[1..]);
    }
  }

  /** Field lists with distinct keys and the same members sort to the same list. */
  lemma SortedFieldsEqual(a: seq<Field>, b: seq<Field>)
    requires DistinctKeys(a) && DistinctKeys(b)
    requires forall f :: f in a <==> f in b
    ensures Sort(a, KeyLe) == Sort(b, KeyLe)
  {
    KeyOrder();
    DistinctMeansOnce(a);
    DistinctMeansOnce(b);
    forall f ensures multiset(a)[f] == multiset(b)[f] {
      assert f in a <==> f in multiset(a);
      assert f in b <==> f in multiset(b);
    }
    assert multiset(a) == multiset(b);
    SortPermutes(a, KeyLe);
    SortPermutes(b, KeyLe);
    SortSorted(a, KeyLe);
    SortSorted(b, KeyLe);
    SameElements(Sort(a, KeyLe), a);
    TiesAreEqual(a);
    SortedUnique(Sort(a, KeyLe), Sort(b, KeyLe), KeyLe);
  }

  /** Sorting the keys gives equal values exactly for values equal up to key order. */
  lemma {:induction false} SortKeysCharacterized(a: Json, b: Json)
    requires WellFormed(a) && WellFormed(b)
    ensures SortKeys(a) == SortKeys(b) <==> Same(a, b)
    decreases a
  {
    match a
    case Array(items) =>
      if b.Array? && |items| == |b.items| {
        forall i | 0 <= i < |items| ensures SortKeys(items[i]) == SortKeys(b.items[i]) <==> Same(items[i], b.items[i]) {
          SortKeysCharacterized(items[i], b.items[i]);
        }
        if SortKeys(a) == SortKeys(b) {
          forall i | 0 <= i < |items| ensures Same(items[i], b.items[i]) {
            assert SortItems(items)[i] == SortItems(b.items)[i];
          }
        }
      } else if b.Array? {
        assert |SortItems(items)| != |SortItems(b.items)|;
      }
    case Object(fields) =>
      if b.Object? {
        forall i, j | 0 <= i < |fields| && 0 <= j < |b.fields|
          ensures SortKeys(fields[i].value) == SortKeys(b.fields[j].value) <==> Same(fields[i].value, b.fields[j].value)
        {
          SortKeysCharacterized(fields[i].value, b.fields[j].value);
        }
        if Same(a, b) { SameObjectsSort(fields, b.fields); }
        if SortKeys(a) == SortKeys(b) { SortedObjectsSame(fields, b.fields); }
      }
    case _ =>
  }

  /** Objects with the same keys, and equal sorted values under equal keys, sort to the same object. */
  lemma SameObjectsSort(xs: seq<Field>, ys: seq<Field>)
    requires DistinctKeys(xs) && DistinctKeys(ys)
    requires forall i :: 0 <= i < |xs| ==> HasKey(ys, xs[i].key)
    requires forall j :: 0 <= j < |ys| ==> HasKey(xs, ys[j].key)
    requires forall i, j :: 0 <= i < |xs| && 0 <= j < |ys| && xs[i].key == ys[j].key ==>
      SortKeys(xs[i].value) == SortKeys(ys[j].value)
    ensures Sort(SortFields(xs), KeyLe) == Sort(SortFields(ys), KeyLe)
  {
    MembersMatch(xs, ys);
    MembersMatch(ys, xs);
    SortedFieldsEqual(SortFields(xs), SortFields(ys));
  }

  lemma MembersMatch(xs: seq<Field>, ys: seq<Field>)
    requires forall i :: 0 <= i < |xs| ==> HasKey(ys, xs[i].key)
    requires forall i, j :: 0 <= i < |xs| && 0 <= j < |ys| && xs[i].key == ys[j].key ==>
      SortKeys(xs[i].value) == SortKeys(ys[j].value)
    ensures forall h :: h in SortFields(xs) ==> h in SortFields(ys)
  {
    forall h | h in SortFields(xs) ensures h in SortFields(ys) {
      var i :| 0 <= i < |xs| && SortFields(xs)[i] == h;
      assert HasKey(ys, xs[i].key);
      var j :| 0 <= j < |ys| && ys[j].key == xs[i].key;
      assert SortFields(ys)[j] == h;
    }
  }

  /** Conversely, objects that sort to the same object pair up key by key. */
  lemma SortedObjectsSame(xs: seq<Field>, ys: seq<Field>)
    requires DistinctKeys(xs) && DistinctKeys(ys)
    requires Sort(SortFields(xs), KeyLe) == Sort(SortFields(ys), KeyLe)
    ensures forall i :: 0 <= i < |xs| ==> HasKey(ys, xs[i].key)
    ensures forall j :: 0 <= j < |ys| ==> HasKey(xs, ys[j].key)
    ensures forall i, j :: 0 <= i < |xs| && 0 <= j < |ys| && xs[i].key == ys[j].key ==>
      SortKeys(xs[i].value) == SortKeys(ys[j].value)
  {
    hide SortKeys, Sort, SortFields;
    SortPermutes(SortFields(xs), KeyLe);
    SortPermutes(SortFields(ys), KeyLe);
    SameElements(SortFields(xs), SortFields(ys));
    forall i | 0 <= i < |xs| ensures HasKey(ys, xs[i].key) { var j := Partner(xs, ys, i); }
    forall j | 0 <= j < |ys| ensures HasKey(xs, ys[j].key) { var i := Partner(ys, xs, j); }
    forall i, j | 0 <= i < |xs| && 0 <= j < |ys| && xs[i].key == ys[j].key
      ensures SortKeys(xs[i].value) == SortKeys(ys[j].value)
    {
      var j' := Partner(xs, ys, i);
    }
  }

  lemma Partner(xs: seq<Field>, ys: seq<Field>, i: nat) returns (j: nat)
    requires i < |xs| && forall h :: h in SortFields(xs) ==> h in SortFields(ys)
    ensures j < |ys| && ys[j].key == xs[i].key && SortKeys(ys[j].value) == SortKeys(xs[i].value)
  {
    var h := SortFields(xs)[i];
    assert h in SortFields(xs);
    j :| 0 <= j < |SortFields(ys)| && SortFields(ys)[j] == h;
  }
}
