/** The string operations the generator relies on, restricted to ASCII case mapping. */
module Text {

  predicate IsLowerLetter(c: char) { 'a' <= c <= 'z' }

  predicate IsUpperLetter(c: char) { 'A' <= c <= 'Z' }

  predicate IsDigit(c: char) { '0' <= c <= '9' }

  /** The characters of the class [a-zA-Z0-9_]. */
  predicate IsWordChar(c: char) { IsLowerLetter(c) || IsUpperLetter(c) || IsDigit(c) || c == '_' }

  /** The characters an enum case identifier may hold: [A-Z0-9_]. */
  predicate IsIdentChar(c: char) { IsUpperLetter(c) || IsDigit(c) || c == '_' }

  function UpperChar(c: char): (r: char)
    ensures !IsLowerLetter(r)
    ensures IsLowerLetter(c) || r == c
    ensures LowerChar(r) == LowerChar(c)
  {
    if IsLowerLetter(c) then (c as int - 'a' as int + 'A' as int) as char else c
  }

  function LowerChar(c: char): (r: char)
    ensures !IsUpperLetter(r)
    ensures IsUpperLetter(c) || r == c
  {
    if IsUpperLetter(c) then (c as int - 'A' as int + 'a' as int) as char else c
  }

  /** String.toLowerCase on ASCII text. */
  function Lower(s: string): (r: string)
    ensures |r| == |s|
    ensures forall i :: 0 <= i < |r| ==> !IsUpperLetter(r[i])
  {
    seq(|s|, i requires 0 <= i < |s| => LowerChar(s[i]))
  }

  /** StringUtils.capitalize: the first character in upper case, the rest untouched. */
  function Capitalize(s: string): (r: string)
    ensures |r| == |s|
    ensures s != [] ==> !IsLowerLetter(r[0]) && r[1..] == s[1..]
    ensures EqualsIgnoreCase(r, s)
  {
    if s == [] then s else [UpperChar(s[0])] + s[1..]
  }

  /** Capitalize's contract fixes its value: any string meeting it is Capitalize(s). */
  lemma CapitalizeUnique(s: string, t: string)
    requires |t| == |s| && EqualsIgnoreCase(t, s)
    requires s != [] ==> !IsLowerLetter(t[0]) && t[1..] == s[1..]
    ensures t == Capitalize(s)
  {
    if s != [] {
      assert LowerChar(t[0]) == LowerChar(s[0]);
      assert t == [t[0]] + t[1..];
    }
  }

  lemma CapitalizeIdempotent(s: string)
    ensures Capitalize(Capitalize(s)) == Capitalize(s)
  {
  }

  /** String.equalsIgnoreCase on ASCII text. */
  predicate EqualsIgnoreCase(a: string, b: string) {
    |a| == |b| && forall i :: 0 <= i < |a| ==> LowerChar(a[i]) == LowerChar(b[i])
  }

  /** StringUtils.endsWithIgnoreCase. */
  predicate EndsWithIgnoreCase(s: string, suffix: string) {
    |suffix| <= |s| && EqualsIgnoreCase(s[|s| - |suffix|..], suffix)
  }

  /** StringUtils.removeEndIgnoreCase: drop the suffix when s ends with it, ignoring case. */
  function RemoveEndIgnoreCase(s: string, remove: string): (r: string)
    ensures r <= s
    ensures remove != [] && EndsWithIgnoreCase(s, remove) ==> |r| == |s| - |remove|
    ensures !EndsWithIgnoreCase(s, remove) ==> r == s
  {
    if s == [] || remove == [] then s
    else if EndsWithIgnoreCase(s, remove) then s[..|s| - |remove|]
    else s
  }

  /** One character of an enum case identifier: upper-cased, and '_' unless it is in [a-zA-Z0-9_]. */
  function IdentChar(c: char): char {
    var u := UpperChar(c);
    if IsWordChar(u) then u else '_'
  }

  /**
   * value.toUpperCase().replaceAll("[^a-zA-Z0-9_]", "_"): the identifier of an enum case
   * (and of an event registry case) derived from its raw value.
   */
  function NormalizeIdent(s: string): (r: string)
    ensures |r| == |s|
    ensures forall i :: 0 <= i < |r| ==> IsIdentChar(r[i])
  {
    if s == [] then [] else [IdentChar(s[0])] + NormalizeIdent(s[1..])
  }

  /** NormalizeIdent leaves a string already made of [A-Z0-9_] unchanged. */
  lemma {:induction false} NormalizeIdentFixesIdents(s: string)
    requires forall i :: 0 <= i < |s| ==> IsIdentChar(s[i])
    ensures NormalizeIdent(s) == s
  {
    if s != [] {
      NormalizeIdentFixesIdents(s[1..]);
    }
  }

  lemma NormalizeIdentIdempotent(s: string)
    ensures NormalizeIdent(NormalizeIdent(s)) == NormalizeIdent(s)
  {
    NormalizeIdentFixesIdents(NormalizeIdent(s));
  }

  /** Each character is mapped on its own: [a-zA-Z0-9_] characters are upper-cased, all others become '_'. */
  lemma {:induction false} NormalizeIdentAt(s: string, i: nat)
    requires i < |s|
    ensures NormalizeIdent(s)[i] == if IsWordChar(s[i]) then UpperChar(s[i]) else '_'
  {
    if i > 0 {
      NormalizeIdentAt(s[1..], i - 1);
    }
  }

  /** Two distinct raw values can share one identifier: the normalisation has no collision guard. */
  lemma NormalizeIdentCollides()
    ensures "a-b" != "A_B" && NormalizeIdent("a-b") == NormalizeIdent("A_B")
  {
    assert NormalizeIdent("a-b") == "A_B";
    NormalizeIdentFixesIdents("A_B");
  }

  /** The pieces of s between '.' characters, before trailing empty pieces are dropped. */
  function Pieces(s: string): (r: seq<string>)
    ensures |r| >= 1
    ensures forall i :: 0 <= i < |r| ==> '.' !in r[i]
  {
    if s == [] then [[]]
    else
      var rest := Pieces(s[1..]);
      if s[0] == '.' then [[]] + rest else [[s[0]] + rest[0]] + rest[1..]
  }

  function DropTrailingEmpty(ps: seq<string>): (r: seq<string>)
    ensures r <= ps
    ensures r == [] || r[|r| - 1] != []
    ensures forall i :: |r| <= i < |ps| ==> ps[i] == []
  {
    if ps == [] || ps[|ps| - 1] != [] then ps else DropTrailingEmpty(ps[..|ps| - 1])
  }

  /** String.split("\\.") on a non-empty string: the pieces, with trailing empty ones removed. */
  function SplitDots(s: string): (r: seq<string>)
    ensures forall i :: 0 <= i < |r| ==> '.' !in r[i]
  {
    DropTrailingEmpty(Pieces(s))
  }

  lemma {:induction false} PiecesWithoutDot(s: string)
    requires '.' !in s
    ensures Pieces(s) == [s]
  {
    if s != [] {
      assert s[0] != '.' by { assert s[0] in s; }
      PiecesWithoutDot(s[1..]);
      assert [s[0]] + s[1..] == s;
    }
  }

  lemma {:induction false} PiecesAfterDot(a: string, b: string)
    requires '.' !in a
    ensures Pieces(a + "." + b) == [a] + Pieces(b)
  {
    if a == [] {
      assert a + "." + b == ['.'] + b;
      assert (['.'] + b)[1..] == b;
    } else {
      var s := a + "." + b;
      assert s[0] == a[0] && a[0] != '.' by { assert a[0] in a; }
      assert s[1..] == a[1..] + "." + b;
      PiecesAfterDot(a[1..], b);
      assert [a[0]] + a[1..] == a;
    }
  }

  /** A reference "D.X" splits into its domain and its id. */
  lemma SplitQualified(a: string, b: string)
    requires '.' !in a && '.' !in b && b != []
    ensures SplitDots(a + "." + b) == [a, b]
  {
    PiecesAfterDot(a, b);
    PiecesWithoutDot(b);
  }

  /** A reference without a dot is its own single piece. */
  lemma SplitBare(s: string)
    requires '.' !in s && s != []
    ensures SplitDots(s) == [s]
  {
    PiecesWithoutDot(s);
  }
}
