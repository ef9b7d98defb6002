/** Letter case and surrounding blanks of ASCII text. */
module Text {

  function LowerChar(c: char): char {
    if 'A' <= c <= 'Z' then ((c as int) + 32) as char else c
  }

  function Lower(s: string): string {
    if s == "" then "" else [LowerChar(s[0])] + Lower(s[1..])
  }

  function UpperChar(c: char): char {
    if 'a' <= c <= 'z' then ((c as int) - 32) as char else c
  }

  function Upper(s: string): string {
    if s == "" then "" else [UpperChar(s[0])] + Upper(s[1..])
  }

  lemma {:induction false} LowerTwice(s: string)
    ensures Lower(Lower(s)) == Lower(s)
  {
    if s != "" {
      LowerTwice(s[1..]);
      assert Lower(s)[1..] == Lower(s[1..]);
    }
  }

  predicate IsSpace(c: char) {
    c == ' ' || (9 as char <= c <= 13 as char) || (28 as char <= c <= 31 as char)
  }

  /** Tabs, line breaks, the four separators and the blank. */
  lemma BlanksOfAscii(c: char)
    ensures IsSpace(c) <==> c as int in {9, 10, 11, 12, 13, 28, 29, 30, 31, 32}
  {
  }

  function StripLeft(s: string): string {
    if s != "" && IsSpace(s[0]) then StripLeft(s[1..]) else s
  }

  function StripRight(s: string): string {
    if s != "" && IsSpace(s[|s| - 1]) then StripRight(s[..|s| - 1]) else s
  }

  function Strip(s: string): string {
    StripRight(StripLeft(s))
  }

  /** The letters from A to Z have the small ones from a to z, in order, and their neighbours have none. */
  lemma CaseOfLetters(c: char, d: char)
    requires 'A' <= c <= 'Z' && 'A' <= d <= 'Z'
    ensures LowerChar('A') == 'a' && LowerChar('Z') == 'z' && LowerChar('@') == '@' && LowerChar('[') == '['
    ensures UpperChar(LowerChar(c)) == c && LowerChar(LowerChar(c)) == LowerChar(c)
    ensures c < d <==> LowerChar(c) < LowerChar(d)
  {
  }

  lemma {:induction false} CaseCharByChar(s: string)
    ensures |Lower(s)| == |s| && forall i :: 0 <= i < |s| ==> Lower(s)[i] == LowerChar(s[i])
    ensures |Upper(s)| == |s| && forall i :: 0 <= i < |s| ==> Upper(s)[i] == UpperChar(s[i])
  {
    if s != "" {
      CaseCharByChar(s[1..]);
    }
  }

  ghost predicate AllBlank(s: string) {
    forall i :: 0 <= i < |s| ==> IsSpace(s[i])
  }

  /** What is trimmed off is blank, and no blank is left at either end. */
  lemma {:induction false} StripTakesBlanks(s: string) returns (left: string, right: string)
    ensures s == left + Strip(s) + right && AllBlank(left) && AllBlank(right)
    ensures Strip(s) != "" ==> !IsSpace(Strip(s)[0]) && !IsSpace(Strip(s)[|Strip(s)| - 1])
  {
    hide IsSpace;
    left := LeftBlanks(s);
    right := RightBlanks(StripLeft(s));
    assert left + (Strip(s) + right) == left + Strip(s) + right;
    if Strip(s) != "" {
      assert StripLeft(s)[0] == Strip(s)[0];
    }
  }

  lemma {:induction false} LeftBlanks(s: string) returns (left: string)
    ensures s == left + StripLeft(s) && AllBlank(left)
    ensures StripLeft(s) != "" ==> !IsSpace(StripLeft(s)[0])
  {
    hide IsSpace;
    if s != "" && IsSpace(s[0]) {
      left := LeftBlanks(s[1..]);
      left := [s[0]] + left;
    } else {
      left := "";
    }
  }

  lemma {:induction false} RightBlanks(s: string) returns (right: string)
    ensures s == StripRight(s) + right && AllBlank(right)
    ensures StripRight(s) != "" ==> !IsSpace(StripRight(s)[|StripRight(s)| - 1])
  {
    hide IsSpace;
    if s != "" && IsSpace(s[|s| - 1]) {
      right := RightBlanks(s[..|s| - 1]);
      right := right + [s[|s| - 1]];
    } else {
      right := "";
    }
  }
}
