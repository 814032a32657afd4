/** Address normalisation: clean, split, expand abbreviations, sort, join
    (backend/src/main/java/com/claimguard/entityresolution/AddressNormalizer.java:22-45). */
module Address {
  import opened LetterCase
  import opened Sorting

  const ABBREVIATIONS: map<string, string> := map[
    "rd" := "road", "st" := "street", "ave" := "avenue", "apt" := "apartment",
    "blvd" := "boulevard", "ln" := "lane", "dr" := "drive", "no" := "number"
  ]

  predicate Letter(c: char) { 'a' <= c <= 'z' || '0' <= c <= '9' }

  predicate Space(c: char) { c == ' ' || 9 as char <= c <= 13 as char }

  const SMALL_LETTERS := "abcdefghijklmnopqrstuvwxyz"
  const DIGITS := "0123456789"

  /** The characters that cleaning keeps. */
  lemma KeptExactly(c: char)
    ensures Letter(c) <==> c in SMALL_LETTERS || c in DIGITS
    ensures Space(c) <==> c as int in {9, 10, 11, 12, 13, 32}
  {
    SmallLetters(c);
    Digits(c);
  }

  lemma SmallLetters(c: char)
    ensures c in SMALL_LETTERS <==> 97 <= c as int <= 122
  {
    if 97 <= c as int <= 122 { assert SMALL_LETTERS[c as int - 97] == c; }
  }

  lemma Digits(c: char)
    ensures c in DIGITS <==> 48 <= c as int <= 57
  {
    if 48 <= c as int <= 57 { assert DIGITS[c as int - 48] == c; }
  }

  function CleanChar(c: char): char {
    if Letter(c) || Space(c) then c else ' '
  }

  function Clean(s: string): (r: string)
    ensures |r| == |s|
  {
    if s == "" then "" else [CleanChar(s[0])] + Clean(s[1..])
  }

  /** The length of the leading run of non-space characters. */
  function WordEnd(s: string): (n: nat)
    ensures n <= |s|
    ensures forall k :: 0 <= k < n ==> !Space(s[k])
    ensures n < |s| ==> Space(s[n])
  {
    if s == "" || Space(s[0]) then 0 else 1 + WordEnd(s[1..])
  }

  /** The length of the leading run of spaces. */
  function SpaceEnd(s: string): (n: nat)
    ensures n <= |s|
    ensures s != "" && Space(s[0]) ==> n > 0
  {
    if s == "" || !Space(s[0]) then 0 else 1 + SpaceEnd(s[1..])
  }

  function TrimLeft(s: string): string {
    if s != "" && s[0] <= ' ' then TrimLeft(s[1..]) else s
  }

  function TrimRight(s: string): string {
    if s != "" && s[|s| - 1] <= ' ' then TrimRight(s[..|s| - 1]) else s
  }

  function Trim(s: string): string { TrimRight(TrimLeft(s)) }

  /** The pieces between runs of spaces, empty ones included. */
  function Pieces(s: string): seq<string> {
    var n := WordEnd(s);
    if n == |s| then [s] else [s[..n]] + Pieces(AfterWord(s))
  }

  function DropTrailingEmpty(pieces: seq<string>): seq<string> {
    if pieces != [] && pieces[|pieces| - 1] == "" then DropTrailingEmpty(pieces[..|pieces| - 1]) else pieces
  }

  /** Splitting on runs of spaces, as the library does it: trailing empty pieces are dropped, but a
      text without a space is returned whole. */
  function Split(s: string): seq<string> {
    if WordEnd(s) == |s| then [s] else DropTrailingEmpty(Pieces(s))
  }

  predicate Blank(s: string) { SpaceEnd(s) == |s| }

  function Expand(token: string): string {
    if token in ABBREVIATIONS then ABBREVIATIONS[token] else token
  }

  function ExpandAll(words: seq<string>): (r: seq<string>)
    ensures |r| == |words|
    ensures forall k :: 0 <= k < |r| ==> r[k] == Expand(words[k])
  {
    if words == [] then [] else [Expand(words[0])] + ExpandAll(words[1..])
  }

  function Join(words: seq<string>): string {
    if words == [] then ""
    else if |words| == 1 then words[0]
    else words[0] + " " + Join(words[1..])
  }

  /** The words of a text: its maximal runs of non-space characters. */
  function Words(s: string): seq<string> {
    if s == "" then []
    else if Space(s[0]) then Words(s[1..])
    else [s[..WordEnd(s)]] + Words(s[WordEnd(s)..])
  }

  /** The expanded tokens of an address; `lower` is the library's lower-casing. */
  function Tokens(lower: string -> string, raw: string): seq<string> {
    ExpandAll(Words(Clean(lower(raw))))
  }

  function Normalized(lower: string -> string, raw: string): string {
    Join(Sort(Tokens(lower, raw), StringLe))
  }

  method Normalize(lower: string -> string, rawAddress: string) returns (r: string)
    ensures r == Normalized(lower, rawAddress)
  {
    hide Clean, Split, Trim, Words, Kept, Blank, Expand, Join, Sort;
    var cleaned := Clean(lower(rawAddress));
    var pieces := Split(Trim(cleaned));
    var tokens: seq<string> := [];
    var k := 0;
    assert pieces[..0] == [];
    NothingKept();
    while k < |pieces|
      invariant 0 <= k <= |pieces|
      invariant tokens == ExpandAll(Kept(pieces[..k]))
    {
      KeptSnoc(pieces, k);
      if Blank(pieces[k]) {
        k := k + 1;
        continue;
      }
      ExpandAppend(Kept(pieces[..k]), [pieces[k]]);
      tokens := tokens + [Expand(pieces[k])];
      k := k + 1;
    }
    assert pieces[..k] == pieces;
    CleanIsSpaced(lower(rawAddress));
    KeptWords(cleaned);
    tokens := Sort(tokens, StringLe);
    r := Join(tokens);
  }

  // ----- the split finds the words -----

  /** The pieces the loop keeps. */
  ghost function Kept(pieces: seq<string>): seq<string> {
    if pieces == [] then []
    else if Blank(pieces[0]) then Kept(pieces[1..])
    else [pieces[0]] + Kept(pieces[1..])
  }

  lemma {:induction false} KeptAppend(a: seq<string>, b: seq<string>)
    ensures Kept(a + b) == Kept(a) + Kept(b)
  {
    if a == [] {
      assert a + b == b;
    } else {
      KeptAppend(a[1..], b);
      KeptCons(a[0], a[1..] + b);
      KeptCons(a[0], a[1..]);
      hide Blank, Kept;
      assert a + b == [a[0]] + (a[1..] + b) && a == [a[0]] + a[1..];
    }
  }

  lemma KeptCons(piece: string, pieces: seq<string>)
    ensures Kept([piece] + pieces) == (if Blank(piece) then [] else [piece]) + Kept(pieces)
  {
    hide Blank;
    assert ([piece] + pieces)[1..] == pieces;
  }

  lemma KeptSnoc(pieces: seq<string>, k: nat)
    requires k < |pieces|
    ensures Kept(pieces[..k + 1]) == Kept(pieces[..k]) + (if Blank(pieces[k]) then [] else [pieces[k]])
  {
    assert pieces[..k + 1] == pieces[..k] + [pieces[k]];
    KeptAppend(pieces[..k], [pieces[k]]);
  }

  lemma {:induction false} KeptDropsEmpty(pieces: seq<string>)
    ensures Kept(DropTrailingEmpty(pieces)) == Kept(pieces)
  {
    if pieces != [] && pieces[|pieces| - 1] == "" {
      KeptDropsEmpty(pieces[..|pieces| - 1]);
      KeptSnoc(pieces, |pieces| - 1);
      assert pieces[..|pieces|] == pieces;
    }
  }

  lemma {:induction false} WordsSkipSpaces(s: string)
    ensures Words(s[SpaceEnd(s)..]) == Words(s)
  {
    if s != "" && Space(s[0]) {
      WordsSkipSpaces(s[1..]);
      assert s[1..][SpaceEnd(s[1..])..] == s[SpaceEnd(s)..];
    }
  }

  lemma WordsFromWord(s: string)
    ensures Words(s) == (if WordEnd(s) == 0 then [] else [s[..WordEnd(s)]]) + Words(s[WordEnd(s)..])
  {
    assert WordEnd(s) == 0 ==> s[WordEnd(s)..] == s;
  }

  lemma KeptFirst(word: string, rest: seq<string>)
    requires forall k :: 0 <= k < |word| ==> !Space(word[k])
    ensures Kept([word] + rest) == (if word == "" then [] else [word]) + Kept(rest)
  {
    assert ([word] + rest)[1..] == rest;
  }

  lemma {:induction false} PiecesAreWords(s: string)
    ensures Kept(Pieces(s)) == Words(s)
    decreases |s|
  {
    var n := WordEnd(s);
    if n == |s| {
      LastPiece(s);
    } else {
      assert Pieces(s) == [s[..n]] + Pieces(AfterWord(s));
      hide Words, Kept, SpaceEnd, Pieces, AfterWord;
      WordsFromWord(s);
      PiecesAreWords(AfterWord(s));
      WordsAfterWord(s);
      KeptFirst(s[..n], Pieces(AfterWord(s)));
    }
  }

  /** What follows the first word and the spaces after it. */
  function AfterWord(s: string): (r: string)
    ensures WordEnd(s) < |s| ==> |r| < |s|
  {
    s[WordEnd(s) + SpaceEnd(s[WordEnd(s)..])..]
  }

  lemma WordsAfterWord(s: string)
    ensures Words(AfterWord(s)) == Words(s[WordEnd(s)..])
  {
    var n := WordEnd(s);
    assert AfterWord(s) == s[n..][SpaceEnd(s[n..])..];
    WordsSkipSpaces(s[n..]);
  }

  lemma LastPiece(s: string)
    requires WordEnd(s) == |s|
    ensures Kept(Pieces(s)) == Words(s)
  {
    WordsFromWord(s);
    hide Words, Kept;
    assert s[..|s|] == s && s[|s|..] == "";
    KeptFirst(s, []);
    assert [s] + [] == [s];
    NothingKept();
  }

  lemma NothingKept()
    ensures Kept([]) == [] && Words("") == []
  {
  }

  lemma {:induction false} WordsOfTrimLeft(s: string)
    requires Spaced(s)
    ensures Words(TrimLeft(s)) == Words(s) && Spaced(TrimLeft(s))
  {
    if s != "" && s[0] <= ' ' { WordsOfTrimLeft(s[1..]); }
  }

  lemma {:induction false} WordsDropSpace(s: string, c: char)
    requires Space(c)
    ensures Words(s + [c]) == Words(s)
    decreases |s|
  {
    if s == "" {
      assert Words([c]) == Words([c][1..]);
    } else if Space(s[0]) {
      WordsDropSpace(s[1..], c);
      assert (s + [c])[1..] == s[1..] + [c];
    } else {
      var n := WordEnd(s);
      WordEndAppend(s, [c]);
      WordsDropSpace(s[n..], c);
      assert (s + [c])[n..] == s[n..] + [c];
      assert (s + [c])[..n] == s[..n];
    }
  }

  lemma {:induction false} WordEndAppend(s: string, t: string)
    requires WordEnd(s) < |s| || t == "" || Space(t[0])
    ensures WordEnd(s + t) == WordEnd(s)
  {
    if s == "" {
      assert s + t == t;
    } else if !Space(s[0]) {
      WordEndAppend(s[1..], t);
      assert (s + t)[1..] == s[1..] + t;
    }
  }

  lemma {:induction false} WordsOfTrimRight(s: string)
    requires Spaced(s)
    ensures Words(TrimRight(s)) == Words(s)
    decreases |s|
  {
    if s != "" && s[|s| - 1] <= ' ' {
      var init := s[..|s| - 1];
      WordsOfTrimRight(init);
      WordsDropSpace(init, s[|s| - 1]);
      assert s == init + [s[|s| - 1]];
    }
  }

  /** Nothing but letters, digits and spaces: what cleaning leaves. */
  ghost predicate Spaced(s: string) {
    forall k :: 0 <= k < |s| ==> Letter(s[k]) || Space(s[k])
  }

  lemma {:induction false} CleanIsSpaced(s: string)
    ensures Spaced(Clean(s))
  {
    if s != "" { CleanIsSpaced(s[1..]); }
  }

  lemma KeptWords(s: string)
    requires Spaced(s)
    ensures Kept(Split(Trim(s))) == Words(s)
  {
    WordsOfTrimLeft(s);
    WordsOfTrimRight(TrimLeft(s));
    PiecesAreWords(Trim(s));
    KeptDropsEmpty(Pieces(Trim(s)));
  }

  // ----- splitting undoes joining -----

  /** A word the normalizer can produce: letters and digits only. */
  ghost predicate Word(w: string) {
    w != "" && forall k :: 0 <= k < |w| ==> Letter(w[k])
  }

  ghost predicate AllWords(words: seq<string>) {
    forall k :: 0 <= k < |words| ==> Word(words[k])
  }

  lemma {:induction false} WordsAreWords(s: string)
    requires Spaced(s)
    ensures AllWords(Words(s))
    decreases |s|
  {
    if s != "" {
      if Space(s[0]) {
        WordsAreWords(s[1..]);
      } else {
        WordsAreWords(s[WordEnd(s)..]);
      }
    }
  }

  lemma {:induction false} WholeWord(w: string)
    requires forall k :: 0 <= k < |w| ==> Letter(w[k])
    ensures WordEnd(w) == |w|
  {
    if w != "" { WholeWord(w[1..]); }
  }

  lemma WordsOfWord(w: string, rest: string)
    requires Word(w) && (rest == "" || Space(rest[0]))
    ensures Words(w + rest) == [w] + Words(rest)
  {
    WholeWord(w);
    if rest == "" {
      assert w + rest == w;
    } else {
      WordEndThenSpace(w, rest);
    }
    assert (w + rest)[..|w|] == w && (w + rest)[|w|..] == rest;
  }

  lemma {:induction false} WordEndThenSpace(w: string, rest: string)
    requires WordEnd(w) == |w| && rest != "" && Space(rest[0])
    ensures WordEnd(w + rest) == |w|
  {
    if w == "" {
      assert w + rest == rest;
    } else {
      WordEndThenSpace(w[1..], rest);
      assert (w + rest)[1..] == w[1..] + rest;
    }
  }

  lemma {:induction false} WordsOfJoin(words: seq<string>)
    requires AllWords(words)
    ensures Words(Join(words)) == words
  {
    if |words| == 1 {
      WordsOfWord(words[0], "");
      assert words[0] + "" == words[0];
    } else if |words| > 1 {
      WordsOfJoin(words[1..]);
      var tail := Join(words[1..]);
      WordsOfWord(words[0], " " + tail);
      assert (" " + tail)[1..] == tail;
      assert Join(words) == words[0] + (" " + tail);
    }
  }

  /** Letters, digits and single spaces: what joining words gives. */
  ghost predicate Plain(s: string) {
    forall k :: 0 <= k < |s| ==> Letter(s[k]) || s[k] == ' '
  }

  lemma {:induction false} JoinIsPlain(words: seq<string>)
    requires AllWords(words)
    ensures Plain(Join(words))
  {
    if |words| > 1 { JoinIsPlain(words[1..]); }
  }

  lemma {:induction false} CleanKeepsPlain(s: string)
    requires Plain(s)
    ensures Clean(s) == s
  {
    if s != "" { CleanKeepsPlain(s[1..]); }
  }

  /** Expansions are words, and never abbreviations themselves. */
  lemma ExpansionsAreFinal(token: string)
    requires Word(token)
    ensures Word(Expand(token)) && Expand(Expand(token)) == Expand(token)
  {
  }

  /** The eight abbreviations, and nothing else, are expanded. */
  lemma ExpansionsExactly(token: string)
    ensures Expand("rd") == "road" && Expand("st") == "street" && Expand("ave") == "avenue"
    ensures Expand("apt") == "apartment" && Expand("blvd") == "boulevard" && Expand("ln") == "lane"
    ensures Expand("dr") == "drive" && Expand("no") == "number"
    ensures token !in {"rd", "st", "ave", "apt", "blvd", "ln", "dr", "no"} ==> Expand(token) == token
  {
  }

  /** The normal form has one space between words and none around them. */
  lemma {:induction false} JoinSpacing(words: seq<string>)
    requires AllWords(words)
    ensures var s := Join(words);
      && (s != "" ==> s[0] != ' ' && s[|s| - 1] != ' ')
      && forall k :: 0 <= k < |s| - 1 ==> !(s[k] == ' ' && s[k + 1] == ' ')
  {
    if |words| == 1 {
      assert Word(words[0]);
    } else if |words| > 1 {
      JoinSpacing(words[1..]);
      assert Word(words[0]) && Word(words[1..][0]);
      var tail := Join(words[1..]);
      assert tail != "" by { if |words[1..]| > 1 { assert |tail| >= |words[1..][0]|; } }
    }
  }

  /** Every normal form is such a text. */
  lemma NormalFormSpacing(lower: string -> string, raw: string)
    ensures var s := Normalized(lower, raw);
      && (forall k :: 0 <= k < |s| ==> s[k] in SMALL_LETTERS || s[k] in DIGITS || s[k] == ' ')
      && (s != "" ==> s[0] != ' ' && s[|s| - 1] != ' ')
      && forall k :: 0 <= k < |s| - 1 ==> !(s[k] == ' ' && s[k + 1] == ' ')
  {
    SortedTokens(lower, raw);
    var sorted := Sort(Tokens(lower, raw), StringLe);
    JoinSpacing(sorted);
    JoinIsPlain(sorted);
    var s := Normalized(lower, raw);
    hide Join, Letter;
    forall k | 0 <= k < |s| ensures s[k] in SMALL_LETTERS || s[k] in DIGITS || s[k] == ' ' { KeptExactly(s[k]); }
  }

  /** And its words are in ascending order. */
  lemma NormalFormSorted(lower: string -> string, raw: string)
    ensures var words := Words(Normalized(lower, raw));
      && multiset(words) == multiset(Tokens(lower, raw))
      && forall i, j :: 0 <= i < j < |words| ==> StringLe(words[i], words[j])
  {
    SortedTokens(lower, raw);
    StringOrder();
    SortPermutes(Tokens(lower, raw), StringLe);
    SortSorted(Tokens(lower, raw), StringLe);
  }

  lemma TokensAreFinal(lower: string -> string, raw: string)
    ensures AllWords(Tokens(lower, raw))
    ensures forall t :: t in Tokens(lower, raw) ==> Expand(t) == t
  {
    hide Expand;
    CleanIsSpaced(lower(raw));
    var words := Words(Clean(lower(raw)));
    WordsAreWords(Clean(lower(raw)));
    forall k | 0 <= k < |words| ensures Word(Expand(words[k])) && Expand(Expand(words[k])) == Expand(words[k]) {
      ExpansionsAreFinal(words[k]);
    }
  }

  /** Sorting keeps every property the tokens have one by one. */
  lemma SortedTokens(lower: string -> string, raw: string)
    ensures var sorted := Sort(Tokens(lower, raw), StringLe);
      AllWords(sorted) && ExpandAll(sorted) == sorted && Words(Normalized(lower, raw)) == sorted
  {
    hide Expand, Word;
    var tokens := Tokens(lower, raw);
    var sorted := Sort(tokens, StringLe);
    TokensAreFinal(lower, raw);
    SortPermutes(tokens, StringLe);
    SameElements(sorted, tokens);
    forall k | 0 <= k < |sorted| ensures Word(sorted[k]) && Expand(sorted[k]) == sorted[k] {
      assert sorted[k] in tokens;
    }
    WordsOfJoin(sorted);
  }

  lemma SortOfEqualBags(a: seq<string>, b: seq<string>)
    requires multiset(a) == multiset(b)
    ensures Sort(a, StringLe) == Sort(b, StringLe)
  {
    StringOrder();
    SortPermutes(a, StringLe);
    SortPermutes(b, StringLe);
    SortSorted(a, StringLe);
    SortSorted(b, StringLe);
    forall x, y | StringLe(x, y) && StringLe(y, x) ensures x == y { StringLeTotal(x, y); }
    SortedUnique(Sort(a, StringLe), Sort(b, StringLe), StringLe);
  }

  /** Which addresses are the same one: those with the same expanded tokens, each as often. */
  lemma SameAddress(lower: string -> string, a: string, b: string)
    ensures Normalized(lower, a) == Normalized(lower, b)
       <==> multiset(Tokens(lower, a)) == multiset(Tokens(lower, b))
  {
    SortedTokens(lower, a);
    SortedTokens(lower, b);
    SortPermutes(Tokens(lower, a), StringLe);
    SortPermutes(Tokens(lower, b), StringLe);
    if multiset(Tokens(lower, a)) == multiset(Tokens(lower, b)) {
      SortOfEqualBags(Tokens(lower, a), Tokens(lower, b));
    }
  }

  /** The normal form is a fixed point, for a lower-casing that leaves it alone. */
  lemma Idempotent(lower: string -> string, raw: string)
    requires lower(Normalized(lower, raw)) == Normalized(lower, raw)
    ensures Normalized(lower, Normalized(lower, raw)) == Normalized(lower, raw)
  {
    var sorted := Sort(Tokens(lower, raw), StringLe);
    SortedTokens(lower, raw);
    JoinIsPlain(sorted);
    CleanKeepsPlain(Normalized(lower, raw));
    SortPermutes(Tokens(lower, raw), StringLe);
    SortOfEqualBags(sorted, Tokens(lower, raw));
  }

  // ----- ASCII lower-casing -----

  lemma {:induction false} LowerKeepsPlain(s: string)
    requires Plain(s)
    ensures Lower(s) == s
  {
    if s != "" { LowerKeepsPlain(s[1..]); }
  }

  /** On ASCII addresses the normal form is a fixed point. */
  lemma AsciiIdempotent(raw: string)
    ensures Normalized(Lower, Normalized(Lower, raw)) == Normalized(Lower, raw)
  {
    SortedTokens(Lower, raw);
    JoinIsPlain(Sort(Tokens(Lower, raw), StringLe));
    LowerKeepsPlain(Normalized(Lower, raw));
    Idempotent(Lower, raw);
  }

  lemma {:induction false} CleanAppend(s: string, t: string)
    ensures Clean(s + t) == Clean(s) + Clean(t)
  {
    if s == "" {
      assert s + t == t;
    } else {
      CleanAppend(s[1..], t);
      CleanCons(s[0], s[1..] + t);
      CleanCons(s[0], s[1..]);
      hide Clean, CleanChar;
      assert [s[0]] + (s[1..] + t) == s + t && [s[0]] + s[1..] == s;
    }
  }

  lemma CleanCons(c: char, s: string)
    ensures Clean([c] + s) == [CleanChar(c)] + Clean(s)
  {
    hide CleanChar;
    assert ([c] + s)[1..] == s;
  }

  lemma {:induction false} WordsAppend(s: string, t: string)
    requires t != "" && Space(t[0])
    ensures Words(s + t) == Words(s) + Words(t)
    decreases |s|
  {
    hide WordEnd, Words, Space;
    if s == "" {
      assert s + t == t && Words("") == [] by { WordsUnfold(""); }
    } else {
      WordsUnfold(s);
      WordsUnfold(s + t);
      if Space(s[0]) {
        WordsAppend(s[1..], t);
        assert (s + t)[1..] == s[1..] + t;
      } else {
        var n := WordEnd(s);
        WordEndAppend(s, t);
        WordsAppend(s[n..], t);
        assert (s + t)[n..] == s[n..] + t;
        assert (s + t)[..n] == s[..n];
      }
    }
  }

  lemma WordsUnfold(s: string)
    ensures Words(s) ==
      if s == "" then [] else if Space(s[0]) then Words(s[1..]) else [s[..WordEnd(s)]] + Words(s[WordEnd(s)..])
    ensures s != "" && !Space(s[0]) ==> WordEnd(s) > 0
  {
  }

  lemma ExpandAppend(a: seq<string>, b: seq<string>)
    ensures ExpandAll(a + b) == ExpandAll(a) + ExpandAll(b)
  {
    hide Expand, ExpandAll;
    var both := ExpandAll(a + b);
    forall k | 0 <= k < |a| + |b| ensures both[k] == (ExpandAll(a) + ExpandAll(b))[k] {
      assert both[k] == Expand((a + b)[k]);
    }
  }

  lemma TokensAcross(s: string, mark: char, t: string)
    requires !Letter(LowerChar(mark))
    ensures Tokens(Lower, s + [mark] + t) == Tokens(Lower, s) + Tokens(Lower, t)
  {
    hide Expand;
    var after := [mark] + t;
    assert s + [mark] + t == s + after;
    LowerAppend(s, after);
    CleanAppend(Lower(s), Lower(after));
    assert after[1..] == t;
    var cleaned := Clean(Lower(after));
    assert cleaned == [CleanChar(LowerChar(mark))] + Clean(Lower(t)) by {
      assert Lower(after)[1..] == Lower(t);
    }
    assert cleaned[1..] == Clean(Lower(t));
    WordsAppend(Clean(Lower(s)), cleaned);
    ExpandAppend(Words(Clean(Lower(s))), Words(Clean(Lower(t))));
  }

  /** The parts of an address can come in either order, with any punctuation between them. */
  lemma PartsInAnyOrder(s: string, mark: char, other: char, t: string)
    requires !Letter(LowerChar(mark)) && !Letter(LowerChar(other))
    ensures Normalized(Lower, s + [mark] + t) == Normalized(Lower, t + [other] + s)
  {
    TokensAcross(s, mark, t);
    TokensAcross(t, other, s);
    SameAddress(Lower, s + [mark] + t, t + [other] + s);
  }
}
