/** Lower-casing of ASCII letters. */
module LetterCase {

  function LowerChar(c: char): char {
    if 'A' <= c <= 'Z' then (c as int + 32) as char else c
  }

  function Lower(s: string): (l: string)
    ensures |l| == |s|
  {
    if s == "" then "" else [LowerChar(s[0])] + Lower(s[1..])
  }

  /** Capital letters become small ones, nothing else changes. */
  lemma LowerExactly(c: char)
    ensures var capital, small := "ABCDEFGHIJKLMNOPQRSTUVWXYZ", "abcdefghijklmnopqrstuvwxyz";
      && (forall k :: 0 <= k < 26 && c == capital[k] ==> LowerChar(c) == small[k])
      && ((forall k :: 0 <= k < 26 ==> c != capital[k]) ==> LowerChar(c) == c)
  {
    var capital := "ABCDEFGHIJKLMNOPQRSTUVWXYZ";
    if 'A' <= c <= 'Z' {
      var k := c as int - 'A' as int;
      assert capital[k] as int == 'A' as int + k;
    }
  }

  lemma {:induction false} LowerAt(s: string, i: nat)
    requires i < |s|
    ensures Lower(s)[i] == LowerChar(s[i])
  {
    if i > 0 { LowerAt(s[1..], i - 1); }
  }

  lemma {:induction false} LowerLast(s: string)
    requires s != ""
    ensures Lower(s)[|s| - 1] == LowerChar(s[|s| - 1])
  {
    if |s| > 1 { LowerLast(s[1..]); }
  }

  lemma {:induction false} LowerAppend(s: string, t: string)
    ensures Lower(s + t) == Lower(s) + Lower(t)
  {
    if s == "" {
      assert s + t == t;
    } else {
      LowerAppend(s[1..], t);
      assert (s + t)[1..] == s[1..] + t;
    }
  }
}
