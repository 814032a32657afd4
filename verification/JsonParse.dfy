/** Reading JSON text, written down on its own from the grammar (sections 2 to 7 of RFC 8259), and the
    round trip with the writer (backend/src/main/java/com/claimguard/audit/CanonicalJson.java:27-51). */
module JsonParse {
  import opened Sorting
  import opened Json
  import opened JsonText

  /** A value read from the front of a text, with the text after it. */
  datatype Parsed<T> = Got(value: T, rest: string) | Bad

  /** Drops insignificant whitespace. */
  function Skip(s: string): (r: string)
    ensures |r| <= |s|
  {
    if s != "" && (s[0] == ' ' || s[0] == '\t' || s[0] == '\n' || s[0] == '\r') then Skip(s[1..]) else s
  }

  function HexValue(c: char): int {
    if '0' <= c <= '9' then c as int - '0' as int
    else if 'a' <= c <= 'f' then c as int - 'a' as int + 10
    else if 'A' <= c <= 'F' then c as int - 'A' as int + 10
    else -1
  }

  /** The character that a short escape stands for, or none. */
  function ShortEscape(c: char): seq<char> {
    match c
    case '"' => ['"']
    case '\\' => ['\\']
    case '/' => ['/']
    case 'b' => [8 as char]
    case 'f' => [12 as char]
    case 'n' => [10 as char]
    case 'r' => [13 as char]
    case 't' => [9 as char]
    case _ => []
  }

  function Prepend(c: char, p: Parsed<string>): Parsed<string> {
    match p
    case Got(s, rest) => Got([c] + s, rest)
    case Bad => Bad
  }

  /** The rest of a string after its opening quote. Escapes by number are read below U+0100 only. */
  function ParseString(s: string): (p: Parsed<string>)
    ensures p.Got? ==> |p.rest| < |s|
  {
    if s == "" || s[0] < ' ' then Bad
    else if s[0] == '"' then Got("", s[1..])
    else if s[0] != '\\' then Prepend(s[0], ParseString(s[1..]))
    else if |s| >= 2 && ShortEscape(s[1]) != [] then Prepend(ShortEscape(s[1])[0], ParseString(s[2..]))
    else if |s| >= 6 && s[1] == 'u' && s[2] == '0' && s[3] == '0' && HexValue(s[4]) >= 0 && HexValue(s[5]) >= 0
    then Prepend((16 * HexValue(s[4]) + HexValue(s[5])) as char, ParseString(s[6..]))
    else Bad
  }

  function NumberEnd(s: string): (n: nat)
    ensures n <= |s| && (s != "" && NumberChar(s[0]) ==> n > 0)
  {
    if s == "" || !NumberChar(s[0]) then 0 else 1 + NumberEnd(s[1..])
  }

  function ParseValue(text: string): (p: Parsed<Json>)
    ensures p.Got? ==> |p.rest| < |text|
    decreases |text|, 1
  {
    var s := Skip(text);
    if s == "" then Bad
    else if s[0] == '{' then
      var inner := Skip(s[1..]);
      if inner != "" && inner[0] == '}' then Got(Object([]), inner[1..])
      else
        match ParseFields(inner)
        case Got(fields, rest) => Got(Object(fields), rest)
        case Bad => Bad
    else if s[0] == '[' then
      var inner := Skip(s[1..]);
      if inner != "" && inner[0] == ']' then Got(Array([]), inner[1..])
      else
        match ParseItems(inner)
        case Got(items, rest) => Got(Array(items), rest)
        case Bad => Bad
    else if s[0] == '"' then
      match ParseString(s[1..])
      case Got(t, rest) => Got(Text(t), rest)
      case Bad => Bad
    else if "null" <= s then Got(Null, s[4..])
    else if "true" <= s then Got(Bool(true), s[4..])
    else if "false" <= s then Got(Bool(false), s[5..])
    else if NumberChar(s[0]) then Got(Number(s[..NumberEnd(s)]), s[NumberEnd(s)..])
    else Bad
  }

  /** One or more items and the closing bracket. */
  function ParseItems(s: string): (p: Parsed<seq<Json>>)
    ensures p.Got? ==> |p.rest| < |s|
    decreases |s|, 2
  {
    match ParseValue(s)
    case Bad => Bad
    case Got(item, after) =>
      var rest := Skip(after);
      if rest == "" then Bad
      else if rest[0] == ']' then Got([item], rest[1..])
      else if rest[0] != ',' then Bad
      else
        match ParseItems(rest[1..])
        case Got(items, end) => Got([item] + items, end)
        case Bad => Bad
  }

  /** One or more fields and the closing brace. */
  function ParseFields(text: string): (p: Parsed<seq<Field>>)
    ensures p.Got? ==> |p.rest| < |text|
    decreases |text|, 2
  {
    var s := Skip(text);
    if s == "" || s[0] != '"' then Bad
    else
      match ParseString(s[1..])
      case Bad => Bad
      case Got(key, afterKey) =>
        var colon := Skip(afterKey);
        if colon == "" || colon[0] != ':' then Bad
        else
          match ParseValue(colon[1..])
          case Bad => Bad
          case Got(value, after) =>
            var rest := Skip(after);
            if rest == "" then Bad
            else if rest[0] == '}' then Got([Field(key, value)], rest[1..])
            else if rest[0] != ',' then Bad
            else
              match ParseFields(rest[1..])
              case Got(fields, end) => Got([Field(key, value)] + fields, end)
              case Bad => Bad
  }

  // ----- what is written reads back -----

  lemma ReadsEscape(c: char, tail: string)
    ensures ParseString(Escape(c) + tail) == Prepend(c, ParseString(tail))
  {
    var e := Escape(c);
    var s := e + tail;
    assert s[|e|..] == tail && s[0] == e[0];
    if |e| == 2 {
      assert s[1] == e[1];
      ShortRead(c);
      hide Escape, ShortEscape;
    } else if |e| == 6 {
      assert s[1] == e[1] && s[2] == e[2] && s[3] == e[3] && s[4] == e[4] && s[5] == e[5];
      HexRead(c as int / 16);
      HexRead(c as int % 16);
      hide HexDigit, HexValue;
      assert ShortEscape('u') == [];
    }
  }

  lemma ShortRead(c: char)
    ensures |Escape(c)| == 2 ==> Escape(c)[0] == '\\' && ShortEscape(Escape(c)[1]) == [c]
    ensures |Escape(c)| in {1, 2, 6}
  {
  }

  lemma HexRead(n: int)
    requires 0 <= n < 16
    ensures HexValue(HexDigit(n)) == n
  {
  }

  lemma {:induction false} ReadsString(x: string, rest: string)
    ensures ParseString(EscapeAll(x) + ("\"" + rest)) == Got(x, rest)
  {
    hide Escape, ShortEscape;
    if x == "" {
      assert EscapeAll(x) + ("\"" + rest) == "\"" + rest;
      assert ("\"" + rest)[1..] == rest;
    } else {
      ReadsString(x[1..], rest);
      Regroup(Escape(x[0]), EscapeAll(x[1..]), "\"" + rest);
      ReadsEscape(x[0], EscapeAll(x[1..]) + ("\"" + rest));
      hide ParseString;
      assert x == [x[0]] + x[1..];
    }
  }

  lemma ReadsQuoted(x: string, rest: string)
    ensures (Quote(x) + rest)[0] == '"' && ParseString((Quote(x) + rest)[1..]) == Got(x, rest)
  {
    ReadsString(x, rest);
    assert (Quote(x) + rest)[1..] == EscapeAll(x) + ("\"" + rest);
  }

  lemma {:induction false} ReadsLexeme(x: string, rest: string)
    requires forall i :: 0 <= i < |x| ==> NumberChar(x[i])
    requires rest == "" || !NumberChar(rest[0])
    ensures NumberEnd(x + rest) == |x|
  {
    if x == "" {
      assert x + rest == rest;
    } else {
      ReadsLexeme(x[1..], rest);
      assert (x + rest)[1..] == x[1..] + rest;
    }
  }

  /** Written text begins with no space. */
  lemma NoSpace(j: Json, rest: string)
    requires WellFormed(j)
    ensures Write(j) != "" && Skip(Write(j) + rest) == Write(j) + rest
  {
    FirstCharacter(j);
    assert (Write(j) + rest)[0] == Write(j)[0];
  }

  /** A written value reads back, and reading stops where it ends. */
  lemma {:induction false} ReadsValue(j: Json, rest: string)
    requires WellFormed(j) && Delimited(rest)
    ensures ParseValue(Write(j) + rest) == Got(j, rest)
    decreases j, 2
  {
    hide EscapeAll, Escape;
    var s := Write(j) + rest;
    NoSpace(j, rest);
    FirstCharacter(j);
    assert s[0] == Write(j)[0];
    match j
    case Null => assert "null" <= s && s[4..] == rest;
    case Bool(b) => assert (if b then "true" else "false") <= s && s[|Write(j)|..] == rest;
    case Number(x) =>
      ReadsLexeme(x, rest);
      assert s[..|x|] == x && s[|x|..] == rest;
    case Text(x) => ReadsQuoted(x, rest);
    case Array(items) => ReadsArray(items, rest);
    case Object(fields) => ReadsObject(fields, rest);
  }

  lemma NotClosing(j: Json)
    requires WellFormed(j)
    ensures Write(j) != "" && Write(j)[0] !in " \t\n\r]"
  {
    FirstCharacter(j);
    hide Write;
  }

  lemma {:induction false} ReadsArray(items: seq<Json>, rest: string)
    requires (forall i :: 0 <= i < |items| ==> WellFormed(items[i])) && Delimited(rest)
    ensures ParseValue(Write(Array(items)) + rest) == Got(Array(items), rest)
    decreases items, 2
  {
    hide WellFormed, ParseString, NumberEnd, NumberChar;
    var s := Write(Array(items)) + rest;
    var inner := WriteItems(items) + rest;
    assert s[0] == '[' && s[1..] == inner;
    if items == [] {
      assert inner == "]" + rest && inner[1..] == rest;
    } else {
      ReadsItems(items, rest);
      NotClosing(items[0]);
      assert inner[0] == Write(items[0])[0];
      hide Write, WriteItems, ParseItems;
    }
  }

  lemma {:induction false} ReadsObject(fields: seq<Field>, rest: string)
    requires (forall i :: 0 <= i < |fields| ==> WellFormed(fields[i].value)) && Delimited(rest)
    ensures ParseValue(Write(Object(fields)) + rest) == Got(Object(fields), rest)
    decreases fields, 2
  {
    hide WellFormed, ParseString, NumberEnd, NumberChar;
    var s := Write(Object(fields)) + rest;
    var inner := WriteFields(fields) + rest;
    assert s[0] == '{' && s[1..] == inner;
    if fields == [] {
      assert inner == "}" + rest && inner[1..] == rest;
    } else {
      ReadsFields(fields, rest);
      assert WriteField(fields[0])[0] == '"';
      assert inner[0] == '"';
      hide Write, WriteFields, ParseFields;
    }
  }

  lemma {:induction false} ReadsItems(items: seq<Json>, rest: string)
    requires items != [] && forall i :: 0 <= i < |items| ==> WellFormed(items[i])
    ensures ParseItems(WriteItems(items) + rest) == Got(items, rest)
    decreases items, 1
  {
    hide Write, WellFormed, WriteItems, MoreItems, ParseValue, NumberChar;
    var others := items[1..];
    var tail := MoreItems(others) + rest;
    ItemsText(items, rest);
    MoreItemsDelimited(others, rest);
    MoreItemsText(others, rest);
    ReadsValue(items[0], tail);
    if others == [] {
      assert items == [items[0]];
    } else {
      ReadsItems(others, rest);
      assert items == [items[0]] + others;
    }
  }

  lemma ItemsText(items: seq<Json>, rest: string)
    requires items != []
    ensures WriteItems(items) + rest == Write(items[0]) + (MoreItems(items[1..]) + rest)
  {
    hide Write, MoreItems;
    Regroup(Write(items[0]), MoreItems(items[1..]), rest);
  }

  lemma MoreItemsText(others: seq<Json>, rest: string)
    ensures var tail := MoreItems(others) + rest;
      tail != "" && tail[1..] == if others == [] then rest else WriteItems(others) + rest
  {
    hide Write;
    var tail := MoreItems(others) + rest;
    if others == [] {
      assert tail == "]" + rest;
    } else {
      assert tail == "," + (WriteItems(others) + rest);
    }
  }

  lemma {:induction false} ReadsFields(fields: seq<Field>, rest: string)
    requires fields != [] && forall i :: 0 <= i < |fields| ==> WellFormed(fields[i].value)
    ensures ParseFields(WriteFields(fields) + rest) == Got(fields, rest)
    decreases fields, 1
  {
    hide Write, WellFormed, Quote, ParseString, ParseValue, WriteFields, WriteField, MoreFields, NumberChar;
    var f, others := fields[0], fields[1..];
    var tail := MoreFields(others) + rest;
    var value := Write(f.value) + tail;
    FieldsText(fields, rest);
    MoreFieldsDelimited(others, rest);
    MoreFieldsText(others, rest);
    ReadsQuoted(f.key, ":" + value);
    assert (":" + value)[1..] == value;
    ReadsValue(f.value, tail);
    if others == [] {
      assert fields == [f];
    } else {
      ReadsFields(others, rest);
      assert fields == [f] + others;
    }
  }

  lemma FieldsText(fields: seq<Field>, rest: string)
    requires fields != []
    ensures WriteFields(fields) + rest
      == Quote(fields[0].key) + (":" + (Write(fields[0].value) + (MoreFields(fields[1..]) + rest)))
  {
    hide Quote, Write, MoreFields;
    var k, v, m := Quote(fields[0].key), Write(fields[0].value), MoreFields(fields[1..]);
    assert WriteFields(fields) == (k + ":" + v) + m;
    hide WriteFields;
    assert ((k + ":" + v) + m) + rest == k + (":" + (v + (m + rest)));
  }

  lemma MoreFieldsText(others: seq<Field>, rest: string)
    ensures var tail := MoreFields(others) + rest;
      tail != "" && tail[1..] == if others == [] then rest else WriteFields(others) + rest
  {
    hide WriteField;
    var tail := MoreFields(others) + rest;
    if others == [] {
      assert tail == "}" + rest;
    } else {
      assert tail == "," + (WriteFields(others) + rest);
    }
  }

  /** The whole text is one value. */
  function Parse(text: string): Parsed<Json> {
    match ParseValue(text)
    case Got(j, rest) => if Skip(rest) == "" then Got(j, "") else Bad
    case Bad => Bad
  }

  /** The canonical text of a value parses, to the value with the keys of every object sorted; and
      the plain text to the value itself. */
  lemma CanonicalTextReads(j: Json)
    requires WellFormed(j)
    ensures Parse(Canonicalize(j)) == Got(SortKeys(j), "")
    ensures Parse(Write(j)) == Got(j, "")
  {
    SortKeysWellFormed(j);
    ReadsValue(SortKeys(j), "");
    ReadsValue(j, "");
    assert Write(SortKeys(j)) + "" == Write(SortKeys(j)) && Write(j) + "" == Write(j);
  }

  /** Reading a canonical text and canonicalizing again gives the same text. */
  lemma CanonicalIsStable(j: Json)
    requires WellFormed(j)
    ensures Parse(Canonicalize(j)).Got? && Canonicalize(Parse(Canonicalize(j)).value) == Canonicalize(j)
  {
    CanonicalTextReads(j);
    SortKeysWellFormed(j);
    SortedIsSame(j);
    CanonicalTextCharacterized(SortKeys(j), j);
  }

  lemma SortedIsSame(j: Json)
    requires WellFormed(j)
    ensures Same(SortKeys(j), j)
  {
    SortKeysIdempotent(j);
    SortKeysWellFormed(j);
    SortKeysCharacterized(SortKeys(j), j);
  }

  lemma {:induction false} SortKeysIdempotent(j: Json)
    requires WellFormed(j)
    ensures SortKeys(SortKeys(j)) == SortKeys(j)
    decreases j
  {
    match j
    case Array(items) =>
      forall i | 0 <= i < |items| ensures SortKeys(SortKeys(items[i])) == SortKeys(items[i]) {
        SortKeysIdempotent(items[i]);
      }
      assert SortItems(SortItems(items)) == SortItems(items);
    case Object(fields) =>
      var xs := SortFields(fields);
      forall i | 0 <= i < |xs| ensures SortKeys(xs[i].value) == xs[i].value { SortKeysIdempotent(fields[i].value); }
      assert DistinctKeys(xs);
      SortingTwice(xs);
    case _ =>
  }

  lemma SortingTwice(xs: seq<Field>)
    requires DistinctKeys(xs) && forall i :: 0 <= i < |xs| ==> SortKeys(xs[i].value) == xs[i].value
    ensures Sort(SortFields(Sort(xs, KeyLe)), KeyLe) == Sort(xs, KeyLe)
  {
    hide SortKeys, Sort, SortFields, DistinctKeys;
    var ys := Sort(xs, KeyLe);
    SortPermutes(xs, KeyLe);
    SameElements(ys, xs);
    forall i | 0 <= i < |ys| ensures SortKeys(ys[i].value) == ys[i].value { assert ys[i] in xs; }
    NothingToSort(ys);
    PermutedKeysDistinct(xs, ys);
    SortedFieldsEqual(ys, xs);
  }

  lemma NothingToSort(fields: seq<Field>)
    requires forall i :: 0 <= i < |fields| ==> SortKeys(fields[i].value) == fields[i].value
    ensures SortFields(fields) == fields
  {
    hide SortKeys;
    assert forall i :: 0 <= i < |fields| ==> SortFields(fields)[i] == fields[i];
  }

  // ----- compactness -----

  function Count(s: string, c: char): nat { multiset(s)[c] }

  lemma CountJoin(a: string, b: string, c: char)
    ensures Count(a + b, c) == Count(a, c) + Count(b, c)
  {
  }

  lemma CountNone(s: string, c: char)
    requires c !in s
    ensures Count(s, c) == 0
  {
  }

  /** The spaces in the strings and keys of a value. */
  function SpacesIn(j: Json): nat {
    match j
    case Text(s) => Count(s, ' ')
    case Array(items) => SpacesInItems(items)
    case Object(fields) => SpacesInFields(fields)
    case _ => 0
  }

  function SpacesInItems(items: seq<Json>): nat {
    if items == [] then 0 else SpacesIn(items[0]) + SpacesInItems(items[1..])
  }

  function SpacesInFields(fields: seq<Field>): nat {
    if fields == [] then 0
    else Count(fields[0].key, ' ') + SpacesIn(fields[0].value) + SpacesInFields(fields[1..])
  }

  /** A space is written as itself and the control characters before it never appear. */
  lemma EscapeCompact(d: char, c: char)
    requires c <= ' '
    ensures Count(Escape(d), c) == if c == ' ' && d == ' ' then 1 else 0
  {
    if d == ' ' {
      assert Escape(d) == " ";
    } else {
      assert forall i :: 0 <= i < |Escape(d)| ==> Escape(d)[i] > ' ';
    }
  }

  lemma {:induction false} EscapedCompact(s: string, c: char)
    requires c <= ' '
    ensures Count(EscapeAll(s), c) == if c == ' ' then Count(s, ' ') else 0
  {
    hide Escape;
    if s != "" {
      EscapeCompact(s[0], c);
      EscapedCompact(s[1..], c);
      CountJoin(Escape(s[0]), EscapeAll(s[1..]), c);
      CountJoin([s[0]], s[1..], ' ');
      assert s == [s[0]] + s[1..];
    }
  }

  lemma LexemeCompact(x: string, c: char)
    requires NumberLexeme(x) && c <= ' '
    ensures Count(x, c) == 0
  {
    assert forall i :: 0 <= i < |x| ==> x[i] != c;
    CountNone(x, c);
  }

  lemma QuoteCompact(s: string, c: char)
    requires c <= ' '
    ensures Count(Quote(s), c) == if c == ' ' then Count(s, ' ') else 0
  {
    EscapedCompact(s, c);
    hide EscapeAll;
    CountJoin("\"" + EscapeAll(s), "\"", c);
    CountJoin("\"", EscapeAll(s), c);
  }

  /** No space is added: the written text has the spaces of the value's strings and keys, and no
      other whitespace. */
  lemma {:induction false} CompactText(j: Json, c: char)
    requires WellFormed(j) && c <= ' '
    ensures Count(Write(j), c) == if c == ' ' then SpacesIn(j) else 0
    decreases j, 1
  {
    hide Quote, Count;
    match j
    case Null => CountNone("null", c);
    case Bool(b) => CountNone(if b then "true" else "false", c);
    case Number(x) => LexemeCompact(x, c);
    case Text(x) => QuoteCompact(x, c);
    case Array(items) =>
      CountNone("[", c);
      CountJoin("[", WriteItems(items), c);
      if items == [] { CountNone("]", c); } else { CompactItems(items, c); }
    case Object(fields) =>
      CountNone("{", c);
      CountJoin("{", WriteFields(fields), c);
      if fields == [] { CountNone("}", c); } else { CompactFields(fields, c); }
  }

  lemma {:induction false} CompactItems(items: seq<Json>, c: char)
    requires items != [] && (forall i :: 0 <= i < |items| ==> WellFormed(items[i])) && c <= ' '
    ensures Count(WriteItems(items), c) == if c == ' ' then SpacesInItems(items) else 0
    decreases items, 0
  {
    hide Write, WellFormed, SpacesIn, Count;
    var others := items[1..];
    CompactText(items[0], c);
    CountJoin(Write(items[0]), MoreItems(others), c);
    if others == [] {
      CountNone("]", c);
    } else {
      CompactItems(others, c);
      assert MoreItems(others) == "," + WriteItems(others);
      CountNone(",", c);
      CountJoin(",", WriteItems(others), c);
    }
  }

  lemma {:induction false} CompactFields(fields: seq<Field>, c: char)
    requires fields != [] && (forall i :: 0 <= i < |fields| ==> WellFormed(fields[i].value)) && c <= ' '
    ensures Count(WriteFields(fields), c) == if c == ' ' then SpacesInFields(fields) else 0
    decreases fields, 0
  {
    hide Write, WellFormed, SpacesIn, Count, Quote;
    var others, f := fields[1..], fields[0];
    CompactText(f.value, c);
    QuoteCompact(f.key, c);
    CountNone(":", c);
    CountJoin(Quote(f.key) + ":", Write(f.value), c);
    CountJoin(Quote(f.key), ":", c);
    CountJoin(WriteField(f), MoreFields(others), c);
    if others == [] {
      CountNone("}", c);
    } else {
      CompactFields(others, c);
      assert MoreFields(others) == "," + WriteFields(others);
      CountNone(",", c);
      CountJoin(",", WriteFields(others), c);
    }
  }
}
