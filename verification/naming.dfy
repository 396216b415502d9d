/** Colour names from the palettes are turned into attribute names by
    `under_score2camelCase`: the text is split by the pattern `_(\w)`, the
    captured characters are upper-cased and everything else is lower-cased. */
module Naming {

  /** `\w` restricted to ASCII: letters, digits and the underscore. */
  predicate IsWordChar(c: char) {
    ('a' <= c <= 'z') || ('A' <= c <= 'Z') || ('0' <= c <= '9') || c == '_'
  }

  function LowerChar(c: char): (r: char)
    ensures 'A' <= c <= 'Z' ==> 'a' <= r <= 'z'
    ensures !('A' <= c <= 'Z') ==> r == c
  {
    if 'A' <= c <= 'Z' then (c as int + 32) as char else c
  }

  function UpperChar(c: char): (r: char)
    ensures 'a' <= c <= 'z' ==> 'A' <= r <= 'Z'
    ensures !('a' <= c <= 'z') ==> r == c
  {
    if 'a' <= c <= 'z' then (c as int - 32) as char else c
  }

  /** `str.lower()` on ASCII text. */
  function Lower(s: string): (r: string)
    ensures |r| == |s|
    ensures forall i | 0 <= i < |s| :: r[i] == LowerChar(s[i])
  {
    if |s| == 0 then "" else [LowerChar(s[0])] + Lower(s[1..])
  }

  /** `str.upper()` on ASCII text. */
  function Upper(s: string): (r: string)
    ensures |r| == |s|
    ensures forall i | 0 <= i < |s| :: r[i] == UpperChar(s[i])
  {
    if |s| == 0 then "" else [UpperChar(s[0])] + Upper(s[1..])
  }

  /** Whether `_(\w)` matches at the start of `s`. */
  predicate MatchesAt(s: string) {
    |s| >= 2 && s[0] == '_' && IsWordChar(s[1])
  }

  /** `re.split(r"_(\w)", s)`: the texts between matches at even positions,
      the captured character of each match at the odd ones. Matches are
      found left to right and do not overlap. */
  function RxSplit(s: string): (r: seq<string>)
    ensures |r| % 2 == 1
    decreases |s|
  {
    if |s| == 0 then [""]
    else if MatchesAt(s) then ["", [s[1]]] + RxSplit(s[2..])
    else
      var t := RxSplit(s[1..]);
      [[s[0]] + t[0]] + t[1..]
  }

  /** Concatenates the tokens, lower-casing those at even positions and
      upper-casing those at odd ones (`odd` tells the parity of the first). */
  function CaseJoin(tokens: seq<string>, odd: bool): string
    decreases |tokens|
  {
    if |tokens| == 0 then ""
    else (if odd then Upper(tokens[0]) else Lower(tokens[0])) + CaseJoin(tokens[1..], !odd)
  }

  /** `under_score2camelCase(s)`, written as RichConsole does it. */
  function UnderScore2CamelCase(s: string): string {
    CaseJoin(RxSplit(s), false)
  }

  /** The same conversion as one left-to-right scan: an underscore followed
      by a word character becomes that character upper-cased, every other
      character is lower-cased. */
  function Rewrite(s: string): (r: string)
    ensures |r| <= |s|
    decreases |s|
  {
    if |s| == 0 then ""
    else if MatchesAt(s) then [UpperChar(s[1])] + Rewrite(s[2..])
    else [LowerChar(s[0])] + Rewrite(s[1..])
  }

  /** Puts the underscore back before every captured character. */
  function Restore(tokens: seq<string>, odd: bool): string
    decreases |tokens|
  {
    if |tokens| == 0 then ""
    else (if odd then "_" + tokens[0] else tokens[0]) + Restore(tokens[1..], !odd)
  }

  /** Every captured token is a single word character. */
  predicate CapturesAreWordChars(tokens: seq<string>) {
    forall i | 0 <= i < |tokens| && i % 2 == 1 :: |tokens[i]| == 1 && IsWordChar(tokens[i][0])
  }

  lemma RestoreCons(tok: string, rest: seq<string>, odd: bool)
    ensures Restore([tok] + rest, odd) == (if odd then "_" + tok else tok) + Restore(rest, !odd)
  {
    assert ([tok] + rest)[0] == tok && ([tok] + rest)[1..] == rest;
  }

  lemma RxSplitUnfold(s: string)
    requires |s| > 0
    ensures MatchesAt(s) ==> RxSplit(s) == [""] + ([[s[1]]] + RxSplit(s[2..]))
    ensures !MatchesAt(s) ==> RxSplit(s) == [[s[0]] + RxSplit(s[1..])[0]] + RxSplit(s[1..])[1..]
  {
  }

  /** Splitting loses nothing: putting the underscores back gives the input. */
  lemma {:induction false} RxSplitRestores(s: string)
    ensures Restore(RxSplit(s), false) == s
    decreases |s|
  {
    if |s| > 0 {
      RxSplitUnfold(s);
      if MatchesAt(s) {
        RxSplitRestores(s[2..]);
        var rest := RxSplit(s[2..]);
        RestoreCons("", [[s[1]]] + rest, false);
        RestoreCons([s[1]], rest, true);
        assert s == ("_" + [s[1]]) + s[2..];
      } else {
        RxSplitRestores(s[1..]);
        var t := RxSplit(s[1..]);
        assert t == [t[0]] + t[1..];
        RestoreCons(t[0], t[1..], false);
        RestoreCons([s[0]] + t[0], t[1..], false);
        var tail := Restore(t[1..], true);
        assert ([s[0]] + t[0]) + tail == [s[0]] + (t[0] + tail);
        assert s == [s[0]] + s[1..];
      }
    }
  }

  /** Every captured token is one word character. */
  lemma {:induction false} RxSplitCaptures(s: string)
    ensures CapturesAreWordChars(RxSplit(s))
    decreases |s|
  {
    if |s| == 0 {
    } else if MatchesAt(s) {
      RxSplitCaptures(s[2..]);
      var rest := RxSplit(s[2..]);
      var r := ["", [s[1]]] + rest;
      forall i | 0 <= i < |r| && i % 2 == 1
        ensures |r[i]| == 1 && IsWordChar(r[i][0])
      {
        if i > 1 {
          assert r[i] == rest[i - 2];
        }
      }
    } else {
      RxSplitCaptures(s[1..]);
      var t := RxSplit(s[1..]);
      var r := [[s[0]] + t[0]] + t[1..];
      forall i | 0 <= i < |r| && i % 2 == 1
        ensures |r[i]| == 1 && IsWordChar(r[i][0])
      {
        assert r[i] == t[i];
      }
    }
  }

  lemma LowerCons(c: char, t: string)
    ensures Lower([c] + t) == [LowerChar(c)] + Lower(t)
  {
    assert ([c] + t)[1..] == t;
  }

  /** The Python split-and-join agrees with the scan on every input. */
  lemma {:induction false} CamelCaseIsRewrite(s: string)
    ensures UnderScore2CamelCase(s) == Rewrite(s)
    decreases |s|
  {
    if |s| == 0 {
    } else if MatchesAt(s) {
      CamelCaseIsRewrite(s[2..]);
      var rest := RxSplit(s[2..]);
      var r := ["", [s[1]]] + rest;
      assert r[1..] == [[s[1]]] + rest && r[1..][1..] == rest;
      assert Upper([s[1]]) == [UpperChar(s[1])];
      assert CaseJoin(r[1..], true) == [UpperChar(s[1])] + CaseJoin(rest, false);
      assert CaseJoin(r, false) == "" + CaseJoin(r[1..], true);
    } else {
      CamelCaseIsRewrite(s[1..]);
      var t := RxSplit(s[1..]);
      var r := [[s[0]] + t[0]] + t[1..];
      assert r[1..] == t[1..];
      LowerCons(s[0], t[0]);
      assert CaseJoin(t, false) == Lower(t[0]) + CaseJoin(t[1..], true);
      assert CaseJoin(r, false) == ([LowerChar(s[0])] + Lower(t[0])) + CaseJoin(t[1..], true);
    }
  }

  /** A name without underscores is only lower-cased. */
  lemma {:induction false} NoUnderscoreLowers(s: string)
    requires '_' !in s
    ensures UnderScore2CamelCase(s) == Lower(s)
    decreases |s|
  {
    CamelCaseIsRewrite(s);
    RewriteWithoutUnderscore(s);
  }

  lemma {:induction false} RewriteWithoutUnderscore(s: string)
    requires '_' !in s
    ensures Rewrite(s) == Lower(s)
    decreases |s|
  {
    if |s| > 0 {
      RewriteWithoutUnderscore(s[1..]);
    }
  }

  /** An underscore-free prefix is lower-cased on its own. */
  lemma {:induction false} RewriteLowersPrefix(a: string, b: string)
    requires '_' !in a
    ensures Rewrite(a + b) == Lower(a) + Rewrite(b)
    decreases |a|
  {
    if |a| > 0 {
      RewriteLowersPrefix(a[1..], b);
      assert (a + b)[0] == a[0] && (a + b)[1..] == a[1..] + b;
    } else {
      assert a + b == b;
    }
  }

  lemma LightBlackHasNoUnderscore()
    ensures '_' !in "LIGHTBLACK"
  {
  }

  lemma LowerLightBlack()
    ensures Lower("LIGHTBLACK") == "lightblack"
  {
  }

  lemma RewriteEx()
    ensures Rewrite("_EX") == "Ex"
  {
    assert "_EX"[2..] == "X";
    assert Rewrite("X") == "x";
  }

  /** The palette name `LIGHTBLACK_EX` becomes the attribute `lightblackEx`. */
  lemma LightBlackEx()
    ensures UnderScore2CamelCase("LIGHTBLACK" + "_EX") == "lightblack" + "Ex"
  {
    CamelCaseIsRewrite("LIGHTBLACK" + "_EX");
    LightBlackHasNoUnderscore();
    LowerLightBlack();
    RewriteLowersPrefix("LIGHTBLACK", "_EX");
    RewriteEx();
  }
}
