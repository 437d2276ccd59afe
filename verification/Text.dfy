/** Letter case, blanks and trimming as Go's strings package has them. */
module Text {

  /** Lower case of an ASCII letter. */
  function Lower(c: char): char {
    if 'A' <= c <= 'Z' then ((c as int) + 32) as char else c
  }

  /** unicode.IsSpace. */
  predicate IsBlank(c: char) {
    var n := c as int;
    || 0x09 <= n <= 0x0d
    || n in {0x20, 0x85, 0xa0, 0x1680}
    || 0x2000 <= n <= 0x200a
    || n in {0x2028, 0x2029, 0x202f, 0x205f, 0x3000}
  }

  /** What is used of unicode.ToLower: it lowers ASCII letters, is settled after once, and neither makes nor removes blanks. */
  ghost predicate IsCaseMap(f: char -> char) {
    forall c ::
      && f(f(c)) == f(c)
      && (IsBlank(f(c)) <==> IsBlank(c))
      && (c as int < 128 ==> f(c) == Lower(c))
  }

  type CaseMap = f: char -> char | IsCaseMap(f) witness Lower

  /** strings.ToLower. */
  function ToLowerBy(lower: CaseMap, s: string): (r: string)
    ensures |r| == |s|
    ensures forall i | 0 <= i < |s| :: r[i] == lower(s[i])
  {
    seq(|s|, i requires 0 <= i < |s| => lower(s[i]))
  }

  /** Lower case of a string whose letters are ASCII. */
  function ToLower(s: string): (r: string)
    ensures |r| == |s|
    ensures forall i | 0 <= i < |s| :: r[i] == Lower(s[i])
  {
    seq(|s|, i requires 0 <= i < |s| => Lower(s[i]))
  }

  function TrimLeft(s: string): (r: string)
    ensures r == [] || !IsBlank(r[0])
    ensures r == [] <==> forall i | 0 <= i < |s| :: IsBlank(s[i])
    ensures s != [] && !IsBlank(s[|s| - 1]) ==> r != [] && r[|r| - 1] == s[|s| - 1]
  {
    if s != [] && IsBlank(s[0]) then TrimLeft(s[1..]) else s
  }

  function TrimRight(s: string): (r: string)
    ensures r == [] || !IsBlank(r[|r| - 1])
    ensures r == [] <==> forall i | 0 <= i < |s| :: IsBlank(s[i])
    ensures s != [] && !IsBlank(s[0]) ==> r != [] && r[0] == s[0]
  {
    if s != [] && IsBlank(s[|s| - 1]) then TrimRight(s[..|s| - 1]) else s
  }

  /** strings.TrimSpace. */
  function TrimSpace(s: string): string {
    TrimRight(TrimLeft(s))
  }

  /** strings.TrimPrefix(s, "0x"). */
  function TrimHex(s: string): string {
    if "0x" <= s then s[2..] else s
  }

  /** Exactly a leading "0x" is taken off, once. */
  lemma TrimHexSpelled(s: string, word: string)
    ensures TrimHex("0x" + word) == word
    ensures !(|s| >= 2 && s[0] == '0' && s[1] == 'x') ==> TrimHex(s) == s
  {
  }

  lemma TrimNothing(s: string)
    requires s != [] && !IsBlank(s[0]) && !IsBlank(s[|s| - 1])
    ensures TrimSpace(s) == s
  {
  }

  /** A string is trimmed to nothing exactly when it is all blanks. */
  lemma TrimmedToNothing(s: string)
    ensures TrimSpace(s) == "" <==> forall i | 0 <= i < |s| :: IsBlank(s[i])
  {
    hide IsBlank;
    var t := TrimLeft(s);
    if t != [] {
      assert TrimRight(t) != [];
    }
  }

  ghost predicate AreBlanks(s: string) {
    forall i | 0 <= i < |s| :: IsBlank(s[i])
  }

  lemma {:induction false} TrimLeftOf(blanks: string, rest: string)
    requires AreBlanks(blanks) && rest != "" && !IsBlank(rest[0])
    ensures TrimLeft(blanks + rest) == rest
  {
    hide IsBlank;
    if blanks == "" {
      assert blanks + rest == rest;
    } else {
      assert (blanks + rest)[1..] == blanks[1..] + rest;
      TrimLeftOf(blanks[1..], rest);
    }
  }

  lemma {:induction false} TrimRightOf(rest: string, blanks: string)
    requires AreBlanks(blanks) && rest != "" && !IsBlank(rest[|rest| - 1])
    ensures TrimRight(rest + blanks) == rest
  {
    hide IsBlank;
    var s := rest + blanks;
    if blanks == "" {
      assert s == rest;
    } else {
      assert s[..|s| - 1] == rest + blanks[..|blanks| - 1];
      TrimRightOf(rest, blanks[..|blanks| - 1]);
    }
  }

  /** Exactly the blanks at both ends are taken off. */
  lemma TrimSpaceSpelled(a: string, mid: string, b: string)
    requires AreBlanks(a) && AreBlanks(b) && mid != "" && !IsBlank(mid[0]) && !IsBlank(mid[|mid| - 1])
    ensures TrimSpace(a + mid + b) == mid
  {
    hide IsBlank, AreBlanks;
    TrimLeftOf(a, mid + b);
    assert a + mid + b == a + (mid + b);
    TrimRightOf(mid, b);
  }

  ghost predicate IsLowered(lower: CaseMap, s: string) {
    forall i | 0 <= i < |s| :: lower(s[i]) == s[i]
  }

  lemma {:induction false} TrimLeftLowered(lower: CaseMap, s: string)
    requires IsLowered(lower, s)
    ensures IsLowered(lower, TrimLeft(s))
  {
    hide IsBlank;
    if s != [] && IsBlank(s[0]) {
      TrimLeftLowered(lower, s[1..]);
    }
  }

  lemma {:induction false} TrimRightLowered(lower: CaseMap, s: string)
    requires IsLowered(lower, s)
    ensures IsLowered(lower, TrimRight(s))
  {
    hide IsBlank;
    if s != [] && IsBlank(s[|s| - 1]) {
      TrimRightLowered(lower, s[..|s| - 1]);
    }
  }

  lemma LowerTwice(lower: CaseMap, s: string)
    ensures IsLowered(lower, ToLowerBy(lower, s))
  {
    forall i | 0 <= i < |s|
      ensures lower(lower(s[i])) == lower(s[i])
    {
    }
  }

  lemma LowerOfLowered(lower: CaseMap, s: string)
    requires IsLowered(lower, s)
    ensures ToLowerBy(lower, s) == s
  {
  }

  lemma LoweredConcat(lower: CaseMap, a: string, b: string)
    requires IsLowered(lower, a) && IsLowered(lower, b)
    ensures IsLowered(lower, a + b)
  {
  }
}
