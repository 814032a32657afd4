/** The compact text determines the value: no two well-formed values are written alike, even
    when more text follows, so the canonical text loses nothing but the order of keys
    (backend/src/main/java/com/claimguard/audit/CanonicalJson.java:26-51). */
module JsonText {
  import opened Sorting
  import opened Json

  /** What may follow a value: nothing, or a separator or closing bracket. */
  predicate Delimited(s: string) {
    s == "" || s[0] == ',' || s[0] == ']' || s[0] == '}'
  }

  // ----- strings -----

  lemma EscapeDecodes(c: char, d: char, s: string, t: string)
    requires Escape(c) + s == Escape(d) + t
    ensures c == d && s == t
  {
    var x, y := Escape(c) + s, Escape(d) + t;
    assert x[0] == Escape(c)[0] && y[0] == Escape(d)[0];
    if x[0] == '\\' {
      assert x[1] == Escape(c)[1] && y[1] == Escape(d)[1];
      if x[1] == 'u' {
        assert x[4] == Escape(c)[4] && y[4] == Escape(d)[4] && x[5] == Escape(c)[5] && y[5] == Escape(d)[5];
        HexInjective(c as int / 16, d as int / 16);
        HexInjective(c as int % 16, d as int % 16);
      }
    }
    assert c == d;
    assert s == x[|Escape(c)|..] && t == y[|Escape(d)|..];
  }

  /** Ordinary characters are written as they are. */
  lemma {:induction false} PlainEscape(s: string)
    requires forall i :: 0 <= i < |s| ==> s[i] >= ' ' && s[i] != '"' && s[i] != '\\'
    ensures EscapeAll(s) == s
  {
    if s != "" { PlainEscape(s[1..]); }
  }

  /** How long an escape is, and that those by number use capital digits. */
  lemma EscapeForm(c: char)
    ensures |Escape(c)| ==
      if c == '"' || c == '\\' || c as int in {8, 9, 10, 12, 13} then 2 else if c < ' ' then 6 else 1
    ensures |Escape(c)| == 6 ==> Escape(c)[4] in "01" && Escape(c)[5] in "0123456789ABCDEF"
  {
  }

  lemma HexInjective(m: int, n: int)
    requires 0 <= m < 16 && 0 <= n < 16 && HexDigit(m) == HexDigit(n)
    ensures m == n
  {
    assert forall i, j :: 0 <= i < j < 16 ==> "0123456789ABCDEF"[i] != "0123456789ABCDEF"[j];
  }

  lemma {:induction false} EscapedStringDecodes(x: string, y: string, s: string, t: string)
    requires EscapeAll(x) + "\"" + s == EscapeAll(y) + "\"" + t
    ensures x == y && s == t
  {
    hide Escape;
    var l, r := EscapeAll(x) + "\"" + s, EscapeAll(y) + "\"" + t;
    assert x != "" ==> l[0] == Escape(x[0])[0] != '"';
    assert y != "" ==> r[0] == Escape(y[0])[0] != '"';
    assert x == "" ==> l[0] == '"';
    assert y == "" ==> r[0] == '"';
    if x == "" || y == "" {
      assert l == "\"" + s && r == "\"" + t;
      Uncons("\"", s, t);
    } else {
      EscapedTail(x, s);
      EscapedTail(y, t);
      EscapeDecodes(x[0], y[0], EscapeAll(x[1..]) + "\"" + s, EscapeAll(y[1..]) + "\"" + t);
      EscapedStringDecodes(x[1..], y[1..], s, t);
      assert x == [x[0]] + x[1..] && y == [y[0]] + y[1..];
    }
  }

  lemma EscapedTail(x: string, s: string)
    requires x != ""
    ensures EscapeAll(x) + "\"" + s == Escape(x[0]) + (EscapeAll(x[1..]) + "\"" + s)
  {
    hide Escape;
    assert EscapeAll(x) == Escape(x[0]) + EscapeAll(x[1..]);
    hide EscapeAll;
    Regroup(EscapeAll(x), "\"", s);
    Regroup(EscapeAll(x[1..]), "\"", s);
    Regroup(Escape(x[0]), EscapeAll(x[1..]), "\"" + s);
  }

  lemma QuoteDecodes(x: string, y: string, s: string, t: string)
    requires Quote(x) + s == Quote(y) + t
    ensures x == y && s == t
  {
    assert (Quote(x) + s)[1..] == EscapeAll(x) + "\"" + s;
    assert (Quote(y) + t)[1..] == EscapeAll(y) + "\"" + t;
    EscapedStringDecodes(x, y, s, t);
  }

  // ----- numbers -----

  lemma ConcatAt(x: string, s: string, k: nat)
    ensures k < |x| ==> (x + s)[k] == x[k]
    ensures k == |x| && s != "" ==> (x + s)[k] == s[0]
  {
  }

  lemma LexemeDecodes(x: string, y: string, s: string, t: string)
    requires NumberLexeme(x) && NumberLexeme(y) && Delimited(s) && Delimited(t)
    requires x + s == y + t
    ensures x == y && s == t
  {
    ConcatAt(x, s, |x|);
    ConcatAt(x, s, |y|);
    ConcatAt(y, t, |x|);
    ConcatAt(y, t, |y|);
    if |x| != |y| { assert false; }
    assert x == (x + s)[..|x|] && y == (y + t)[..|x|];
    assert s == (x + s)[|x|..] && t == (y + t)[|x|..];
  }

  // ----- values -----

  /** The first character of the text tells the kind of value. */
  lemma FirstCharacter(j: Json)
    requires WellFormed(j)
    ensures Write(j) != ""
    ensures var c := Write(j)[0];
      match j
      case Null => c == 'n'
      case Bool(b) => c == if b then 't' else 'f'
      case Number(_) => NumberChar(c)
      case Text(_) => c == '"'
      case Array(_) => c == '['
      case Object(_) => c == '{'
  {
  }

  lemma Uncons(a: string, x: string, y: string)
    requires a + x == a + y
    ensures x == y
  {
    assert x == (a + x)[|a|..] && y == (a + y)[|a|..];
  }

  /** A value and what follows it can be told apart from their joint text. */
  lemma {:induction false} ValueDecodes(a: Json, b: Json, s: string, t: string)
    requires WellFormed(a) && WellFormed(b) && Delimited(s) && Delimited(t)
    requires Write(a) + s == Write(b) + t
    ensures a == b && s == t
    decreases a, 2
  {
    FirstCharacter(a);
    FirstCharacter(b);
    assert Write(a)[0] == (Write(a) + s)[0] == (Write(b) + t)[0] == Write(b)[0];
    match a
    case Null => Uncons("null", s, t);
    case Bool(v) => Uncons(if v then "true" else "false", s, t);
    case Number(x) => LexemeDecodes(x, b.lexeme, s, t);
    case Text(x) => QuoteDecodes(x, b.s, s, t);
    case Array(items) =>
      Regroup("[", WriteItems(items), s);
      Regroup("[", WriteItems(b.items), t);
      Uncons("[", WriteItems(items) + s, WriteItems(b.items) + t);
      ItemsDecode(items, b.items, s, t);
    case Object(fields) =>
      Regroup("{", WriteFields(fields), s);
      Regroup("{", WriteFields(b.fields), t);
      Uncons("{", WriteFields(fields) + s, WriteFields(b.fields) + t);
      FieldsDecode(fields, b.fields, s, t);
  }

  lemma Regroup(a: string, b: string, c: string)
    ensures (a + b) + c == a + (b + c)
  {
  }

  lemma {:induction false} ItemsDecode(xs: seq<Json>, ys: seq<Json>, s: string, t: string)
    requires forall i :: 0 <= i < |xs| ==> WellFormed(xs[i])
    requires forall i :: 0 <= i < |ys| ==> WellFormed(ys[i])
    requires WriteItems(xs) + s == WriteItems(ys) + t
    ensures xs == ys && s == t
    decreases xs, 1
  {
    var l, r := WriteItems(xs) + s, WriteItems(ys) + t;
    if xs != [] { FirstCharacter(xs[0]); assert l[0] == Write(xs[0])[0]; }
    if ys != [] { FirstCharacter(ys[0]); assert r[0] == Write(ys[0])[0]; }
    if xs == [] || ys == [] {
      Uncons("]", s, t);
    } else {
      Regroup(Write(xs[0]), MoreItems(xs[1..]), s);
      Regroup(Write(ys[0]), MoreItems(ys[1..]), t);
      MoreItemsDelimited(xs[1..], s);
      MoreItemsDelimited(ys[1..], t);
      ValueDecodes(xs[0], ys[0], MoreItems(xs[1..]) + s, MoreItems(ys[1..]) + t);
      MoreItemsDecode(xs[1..], ys[1..], s, t);
      assert xs == [xs[0]] + xs[1..] && ys == [ys[0]] + ys[1..];
    }
  }

  lemma MoreItemsDelimited(xs: seq<Json>, s: string)
    ensures MoreItems(xs) != "" && Delimited(MoreItems(xs) + s)
    ensures (MoreItems(xs) + s)[0] == if xs == [] then ']' else ','
  {
  }

  lemma {:induction false} MoreItemsDecode(xs: seq<Json>, ys: seq<Json>, s: string, t: string)
    requires forall i :: 0 <= i < |xs| ==> WellFormed(xs[i])
    requires forall i :: 0 <= i < |ys| ==> WellFormed(ys[i])
    requires MoreItems(xs) + s == MoreItems(ys) + t
    ensures xs == ys && s == t
    decreases xs, 0
  {
    MoreItemsDelimited(xs, s);
    MoreItemsDelimited(ys, t);
    if xs == [] {
      Uncons("]", s, t);
    } else {
      var x, y := MoreItems(xs[1..]) + s, MoreItems(ys[1..]) + t;
      assert MoreItems(xs) + s == "," + (Write(xs[0]) + x);
      assert MoreItems(ys) + t == "," + (Write(ys[0]) + y);
      Uncons(",", Write(xs[0]) + x, Write(ys[0]) + y);
      MoreItemsDelimited(xs[1..], s);
      MoreItemsDelimited(ys[1..], t);
      ValueDecodes(xs[0], ys[0], x, y);
      MoreItemsDecode(xs[1..], ys[1..], s, t);
      assert xs == [xs[0]] + xs[1..] && ys == [ys[0]] + ys[1..];
    }
  }

  lemma {:induction false} FieldDecodes(f: Field, g: Field, s: string, t: string)
    requires WellFormed(f.value) && WellFormed(g.value) && Delimited(s) && Delimited(t)
    requires WriteField(f) + s == WriteField(g) + t
    ensures f == g && s == t
    decreases f, 3
  {
    hide Quote, Delimited, WellFormed;
    var x, y := Write(f.value) + s, Write(g.value) + t;
    Regroup(Quote(f.key), ":" + Write(f.value), s);
    Regroup(Quote(g.key), ":" + Write(g.value), t);
    Regroup(":", Write(f.value), s);
    Regroup(":", Write(g.value), t);
    Regroup(Quote(f.key), ":", Write(f.value));
    Regroup(Quote(g.key), ":", Write(g.value));
    QuoteDecodes(f.key, g.key, ":" + x, ":" + y);
    Uncons(":", x, y);
    ValueDecodes(f.value, g.value, s, t);
  }

  lemma {:induction false} FieldsDecode(xs: seq<Field>, ys: seq<Field>, s: string, t: string)
    requires forall i :: 0 <= i < |xs| ==> WellFormed(xs[i].value)
    requires forall i :: 0 <= i < |ys| ==> WellFormed(ys[i].value)
    requires WriteFields(xs) + s == WriteFields(ys) + t
    ensures xs == ys && s == t
    decreases xs, 1
  {
    var l, r := WriteFields(xs) + s, WriteFields(ys) + t;
    if xs != [] { assert l[0] == WriteField(xs[0])[0] == '"'; }
    if ys != [] { assert r[0] == WriteField(ys[0])[0] == '"'; }
    if xs == [] || ys == [] {
      Uncons("}", s, t);
    } else {
      Regroup(WriteField(xs[0]), MoreFields(xs[1..]), s);
      Regroup(WriteField(ys[0]), MoreFields(ys[1..]), t);
      MoreFieldsDelimited(xs[1..], s);
      MoreFieldsDelimited(ys[1..], t);
      FieldDecodes(xs[0], ys[0], MoreFields(xs[1..]) + s, MoreFields(ys[1..]) + t);
      MoreFieldsDecode(xs[1..], ys[1..], s, t);
      assert xs == [xs[0]] + xs[1..] && ys == [ys[0]] + ys[1..];
    }
  }

  lemma MoreFieldsDelimited(xs: seq<Field>, s: string)
    ensures MoreFields(xs) != "" && Delimited(MoreFields(xs) + s)
    ensures (MoreFields(xs) + s)[0] == if xs == [] then '}' else ','
  {
  }

  lemma {:induction false} MoreFieldsDecode(xs: seq<Field>, ys: seq<Field>, s: string, t: string)
    requires forall i :: 0 <= i < |xs| ==> WellFormed(xs[i].value)
    requires forall i :: 0 <= i < |ys| ==> WellFormed(ys[i].value)
    requires MoreFields(xs) + s == MoreFields(ys) + t
    ensures xs == ys && s == t
    decreases xs, 0
  {
    hide WriteField;
    MoreFieldsDelimited(xs, s);
    MoreFieldsDelimited(ys, t);
    if xs == [] {
      Uncons("}", s, t);
    } else {
      var x, y := MoreFields(xs[1..]) + s, MoreFields(ys[1..]) + t;
      assert MoreFields(xs) + s == "," + (WriteField(xs[0]) + x);
      assert MoreFields(ys) + t == "," + (WriteField(ys[0]) + y);
      Uncons(",", WriteField(xs[0]) + x, WriteField(ys[0]) + y);
      MoreFieldsDelimited(xs[1..], s);
      MoreFieldsDelimited(ys[1..], t);
      FieldDecodes(xs[0], ys[0], x, y);
      MoreFieldsDecode(xs[1..], ys[1..], s, t);
      assert xs == [xs[0]] + xs[1..] && ys == [ys[0]] + ys[1..];
    }
  }

  // ----- the canonical text -----

  lemma {:induction false} SortKeysWellFormed(j: Json)
    requires WellFormed(j)
    ensures WellFormed(SortKeys(j))
    decreases j
  {
    match j
    case Array(items) =>
      forall i | 0 <= i < |items| ensures WellFormed(SortKeys(items[i])) {
        SortKeysWellFormed(items[i]);
      }
    case Object(fields) =>
      var xs := SortFields(fields);
      forall i | 0 <= i < |xs| ensures WellFormed(xs[i].value) {
        SortKeysWellFormed(fields[i].value);
      }
      var ys := Sort(xs, KeyLe);
      SortPermutes(xs, KeyLe);
      SameElements(ys, xs);
      forall i | 0 <= i < |ys| ensures WellFormed(ys[i].value) {
        assert ys[i] in xs;
      }
      PermutedKeysDistinct(xs, ys);
    case _ =>
  }

  /** In every object, at every depth, the keys are listed in ascending order. */
  ghost predicate KeysAscend(j: Json) {
    match j
    case Array(items) => forall i :: 0 <= i < |items| ==> KeysAscend(items[i])
    case Object(fields) =>
      && (forall i, k :: 0 <= i < k < |fields| ==> StringLe(fields[i].key, fields[k].key))
      && forall i :: 0 <= i < |fields| ==> KeysAscend(fields[i].value)
    case _ => true
  }

  /** Canonicalization lists the keys of every object in ascending order. */
  lemma {:induction false} SortKeysAscends(j: Json)
    ensures KeysAscend(SortKeys(j))
    decreases j
  {
    match j
    case Array(items) =>
      forall i | 0 <= i < |items| ensures KeysAscend(SortKeys(items[i])) { SortKeysAscends(items[i]); }
    case Object(fields) =>
      var xs := SortFields(fields);
      forall i | 0 <= i < |xs| ensures KeysAscend(xs[i].value) { SortKeysAscends(fields[i].value); }
      var ys := Sort(xs, KeyLe);
      SortPermutes(xs, KeyLe);
      SameElements(ys, xs);
      forall i | 0 <= i < |ys| ensures KeysAscend(ys[i].value) { assert ys[i] in xs; }
      KeyOrder();
      SortSorted(xs, KeyLe);
      forall i, k | 0 <= i < k < |ys| ensures StringLe(ys[i].key, ys[k].key) { assert KeyLe(ys[i], ys[k]); }
    case _ =>
  }

  lemma PermutedKeysDistinct(xs: seq<Field>, ys: seq<Field>)
    requires DistinctKeys(xs) && multiset(xs) == multiset(ys)
    ensures DistinctKeys(ys)
  {
    SameElements(xs, ys);
    DistinctMeansOnce(xs);
    forall i, j | 0 <= i < j < |ys| ensures ys[i].key != ys[j].key {
      CountTwice(ys, i, j);
      assert ys[i] in xs && ys[j] in xs;
    }
  }

  lemma CountTwice(ys: seq<Field>, i: nat, j: nat)
    requires i < j < |ys|
    ensures ys[i] == ys[j] ==> multiset(ys)[ys[i]] >= 2
  {
    var f, rest := ys[i], ys[j..];
    assert ys == ys[..j] + rest;
    assert ys[..j][i] == f && rest[0] == ys[j];
    assert multiset(ys)[f] == multiset(ys[..j])[f] + multiset(rest)[f];
  }

  /** The canonical texts of two values are equal exactly when the values are equal up to the
      order of keys at every depth. */
  lemma CanonicalTextCharacterized(a: Json, b: Json)
    requires WellFormed(a) && WellFormed(b)
    ensures Canonicalize(a) == Canonicalize(b) <==> Same(a, b)
  {
    SortKeysCharacterized(a, b);
    SortKeysWellFormed(a);
    SortKeysWellFormed(b);
    if Canonicalize(a) == Canonicalize(b) {
      assert Write(SortKeys(a)) + "" == Write(SortKeys(b)) + "";
      ValueDecodes(SortKeys(a), SortKeys(b), "", "");
    }
  }
}
