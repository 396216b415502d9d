/** Serialisation of a style as an SGR control sequence (section 8.3.117 of
    ECMA-48): ESC, '[', the codes in decimal separated by ';', then 'm'. */
module ControlCodes {
  import opened Wrappers
  import opened Styles

  const Esc: char := 27 as char

  predicate IsDigit(c: char) {
    '0' <= c <= '9'
  }

  predicate AllDigits(s: string) {
    forall k | 0 <= k < |s| :: IsDigit(s[k])
  }

  function DigitChar(d: nat): (c: char)
    requires d < 10
    ensures IsDigit(c)
  {
    ('0' as int + d) as char
  }

  /** The value of a string of decimal digits. */
  function DecValue(s: string): nat
    requires AllDigits(s)
  {
    if |s| == 0 then 0 else DecValue(s[..|s| - 1]) * 10 + (s[|s| - 1] as int - '0' as int)
  }

  /** Python's `str` of a non-negative integer: its plain decimal digits,
      with no leading zero. */
  function DecStr(n: nat): (r: string)
    ensures |r| >= 1 && AllDigits(r)
    ensures n < 10 <==> |r| == 1
    ensures DecValue(r) == n
    ensures r[0] == '0' ==> n == 0
  {
    if n < 10 then [DigitChar(n)]
    else
      var r := DecStr(n / 10) + [DigitChar(n % 10)];
      assert r[..|r| - 1] == DecStr(n / 10);
      r
  }

  /** The codes in decimal, separated by semicolons. */
  function JoinCodes(codes: seq<nat>): string {
    if |codes| == 0 then ""
    else if |codes| == 1 then DecStr(codes[0])
    else DecStr(codes[0]) + ";" + JoinCodes(codes[1..])
  }

  /** The control sequence for a list of codes. It reads back as exactly
      those codes, so the rendering of a style loses nothing. */
  function Sgr(codes: seq<nat>): (r: string)
    ensures |r| >= 3 && r[0] == Esc && r[1] == '[' && r[|r| - 1] == 'm'
    ensures ParseSgr(r) == Some(codes)
    ensures forall tok | tok in SplitSemi(r[2..|r| - 1]) && |tok| > 1 :: tok[0] != '0'
  {
    FramedCodesReadBack(codes);
    [Esc, '['] + JoinCodes(codes) + "m"
  }

  /** `str(style)`: a style renders as the control sequence of its codes. */
  function StyleSgr(st: Style): string {
    Sgr(st.codes)
  }

  /** Splits a string at every ';', as `str.split(";")` does. */
  function SplitSemi(s: string): (r: seq<string>)
    ensures |r| >= 1
  {
    if |s| == 0 then [""]
    else if s[0] == ';' then [""] + SplitSemi(s[1..])
    else
      var rest := SplitSemi(s[1..]);
      [[s[0]] + rest[0]] + rest[1..]
  }

  function ParseDec(s: string): Option<nat> {
    if |s| > 0 && AllDigits(s) then Some(DecValue(s)) else None
  }

  function ParseTokens(toks: seq<string>): Option<seq<nat>> {
    if |toks| == 0 then Some([])
    else
      var head := ParseDec(toks[0]);
      var tail := ParseTokens(toks[1..]);
      if head.Some? && tail.Some? then Some([head.value] + tail.value) else None
  }

  /** Reads back the codes of a control sequence; `None` if it is not one. */
  function ParseSgr(s: string): Option<seq<nat>> {
    if |s| >= 3 && s[0] == Esc && s[1] == '[' && s[|s| - 1] == 'm' then
      var body := s[2..|s| - 1];
      if |body| == 0 then Some([]) else ParseTokens(SplitSemi(body))
    else None
  }

  /** Splitting a ';'-free prefix glued to the rest extends the first field. */
  lemma {:induction false} SplitSemiPrefix(a: string, t: string)
    requires forall k | 0 <= k < |a| :: a[k] != ';'
    ensures SplitSemi(a + t) == [a + SplitSemi(t)[0]] + SplitSemi(t)[1..]
  {
    if |a| > 0 {
      var st := SplitSemi(t);
      SplitSemiPrefix(a[1..], t);
      assert (a + t)[1..] == a[1..] + t;
      var rest := SplitSemi(a[1..] + t);
      assert rest == [a[1..] + st[0]] + st[1..];
      assert (a + t)[0] == a[0] && a[0] != ';';
      assert SplitSemi(a + t) == [[a[0]] + rest[0]] + rest[1..];
      assert [a[0]] + (a[1..] + st[0]) == a + st[0];
    } else {
      var st := SplitSemi(t);
      assert a + t == t;
      assert a + st[0] == st[0];
      assert st == [st[0]] + st[1..];
    }
  }

  lemma {:induction false} SplitJoinCodes(codes: seq<nat>)
    requires |codes| >= 1
    ensures ParseTokens(SplitSemi(JoinCodes(codes))) == Some(codes)
  {
    var d := DecStr(codes[0]);
    assert forall k | 0 <= k < |d| :: d[k] != ';' by {
      forall k | 0 <= k < |d| ensures d[k] != ';' {
        assert IsDigit(d[k]);
      }
    }
    if |codes| == 1 {
      SplitSemiPrefix(d, "");
      assert d + "" == d;
      assert SplitSemi(d) == [d];
      assert ParseDec(d) == Some(codes[0]);
      assert [d][1..] == [];
      assert ParseTokens([d][1..]) == Some([]);
      assert [codes[0]] + [] == codes;
    } else {
      var rest := JoinCodes(codes[1..]);
      SplitSemiPrefix(d, ";" + rest);
      assert d + ";" + rest == d + (";" + rest);
      assert (";" + rest)[0] == ';' && (";" + rest)[1..] == rest;
      assert SplitSemi(";" + rest) == [""] + SplitSemi(rest);
      assert d + "" == d;
      SplitJoinCodes(codes[1..]);
      assert SplitSemi(";" + rest)[0] == "";
      assert SplitSemi(d + ";" + rest) == [d] + SplitSemi(rest);
      var toks := [d] + SplitSemi(rest);
      assert toks[1..] == SplitSemi(rest);
      assert ParseDec(d) == Some(codes[0]);
      assert [codes[0]] + codes[1..] == codes;
    }
  }

  /** The joined codes, framed by ESC '[' and 'm', parse back to the codes,
      and every field is written without a leading zero. */
  lemma FramedCodesReadBack(codes: seq<nat>)
    ensures var r := [Esc, '['] + JoinCodes(codes) + "m";
      && ParseSgr(r) == Some(codes)
      && forall tok | tok in SplitSemi(r[2..|r| - 1]) && |tok| > 1 :: tok[0] != '0'
  {
    var r := [Esc, '['] + JoinCodes(codes) + "m";
    assert r[2..|r| - 1] == JoinCodes(codes);
    if |codes| > 0 {
      SplitJoinCodes(codes);
      assert |DecStr(codes[0])| >= 1;
      SplitJoinTokens(codes);
    } else {
      assert SplitSemi(r[2..|r| - 1]) == [""];
    }
  }

  /** The fields of the joined codes are the decimal forms of the codes. */
  lemma {:induction false} SplitJoinTokens(codes: seq<nat>)
    requires |codes| >= 1
    ensures var toks := SplitSemi(JoinCodes(codes));
      |toks| == |codes| && forall i | 0 <= i < |codes| :: toks[i] == DecStr(codes[i])
    decreases |codes|
  {
    var d := DecStr(codes[0]);
    assert forall k | 0 <= k < |d| :: d[k] != ';' by {
      forall k | 0 <= k < |d| ensures d[k] != ';' {
        assert IsDigit(d[k]);
      }
    }
    if |codes| == 1 {
      SplitSemiPrefix(d, "");
      assert d + "" == d;
      assert SplitSemi(d) == [d];
    } else {
      var rest := JoinCodes(codes[1..]);
      SplitSemiPrefix(d, ";" + rest);
      assert d + ";" + rest == d + (";" + rest);
      assert (";" + rest)[0] == ';' && (";" + rest)[1..] == rest;
      assert SplitSemi(";" + rest) == [""] + SplitSemi(rest);
      assert d + "" == d;
      SplitJoinTokens(codes[1..]);
      var toks := [d] + SplitSemi(rest);
      assert SplitSemi(d + ";" + rest) == toks;
      forall i | 1 <= i < |codes| ensures toks[i] == DecStr(codes[i]) {
        assert toks[i] == SplitSemi(rest)[i - 1];
        assert codes[1..][i - 1] == codes[i];
      }
    }
  }
}
