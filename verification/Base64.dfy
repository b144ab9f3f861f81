/** Standard base64, section 4 of RFC 4648, with the leniency of Go's decoder towards line breaks. */
module Base64 {
  import opened GoText
  import opened Archive

  type digit = d: int | 0 <= d < 64

  function Symbol(d: digit): char {
    if d < 26 then 'A' + d as char
    else if d < 52 then 'a' + (d - 26) as char
    else if d < 62 then '0' + (d - 52) as char
    else if d == 62 then '+' else '/'
  }

  function Value(c: char): Option<digit> {
    if 'A' <= c <= 'Z' then Some((c - 'A') as int)
    else if 'a' <= c <= 'z' then Some(26 + (c - 'a') as int)
    else if '0' <= c <= '9' then Some(52 + (c - '0') as int)
    else if c == '+' then Some(62)
    else if c == '/' then Some(63)
    else None
  }

  lemma SymbolsDiffer(d: digit)
    ensures Value(Symbol(d)) == Some(d)
    ensures Symbol(d) != '=' && Symbol(d) != '\r' && Symbol(d) != '\n'
  {
  }

  /** The four digits of three bytes. */
  function Digits(a: byte, b: byte, c: byte): (digit, digit, digit, digit) {
    (a / 4, a % 4 * 16 + b / 16, b % 16 * 4 + c / 64, c % 64)
  }

  /** StdEncoding.EncodeToString. */
  function Encode(bs: Bytes): string {
    if bs == [] then ""
    else if |bs| == 1 then
      var d := Digits(bs[0], 0, 0);
      [Symbol(d.0), Symbol(d.1), '=', '=']
    else if |bs| == 2 then
      var d := Digits(bs[0], bs[1], 0);
      [Symbol(d.0), Symbol(d.1), Symbol(d.2), '=']
    else
      var d := Digits(bs[0], bs[1], bs[2]);
      [Symbol(d.0), Symbol(d.1), Symbol(d.2), Symbol(d.3)] + Encode(bs[3..])
  }

  /** Line breaks are skipped wherever they stand. */
  function WithoutBreaks(s: string): string {
    if s == "" then "" else
      var rest := WithoutBreaks(s[1..]);
      if s[0] == '\r' || s[0] == '\n' then rest else [s[0]] + rest
  }

  /** The three bytes of four digits. */
  function First(a: int, b: int): byte
    requires 0 <= a < 64 && 0 <= b < 64
  {
    a * 4 + b / 16
  }

  function Second(b: int, c: int): byte
    requires 0 <= b < 64 && 0 <= c < 64
  {
    b % 16 * 16 + c / 4
  }

  function Third(c: int, d: int): byte
    requires 0 <= c < 64 && 0 <= d < 64
  {
    c % 4 * 64 + d
  }

  /** Groups of four symbols; padding only at the very end, whose unused low bits are not looked at. */
  function DecodeGroups(s: string): Option<Bytes> {
    if s == "" then Some([])
    else if |s| < 4 then None
    else match (Value(s[0]), Value(s[1]), Value(s[2]), Value(s[3]))
      case (Some(a), Some(b), Some(c), Some(d)) =>
        (match DecodeGroups(s[4..])
         case None => None
         case Some(rest) => Some([First(a, b), Second(b, c), Third(c, d)] + rest))
      case (Some(a), Some(b), Some(c), None) =>
        if |s| == 4 && s[3] == '=' then Some([First(a, b), Second(b, c)]) else None
      case (Some(a), Some(b), None, None) =>
        if |s| == 4 && s[2] == '=' && s[3] == '=' then Some([First(a, b)]) else None
      case _ => None
  }

  /** StdEncoding.DecodeString. */
  function Decode(s: string): Option<Bytes> { DecodeGroups(WithoutBreaks(s)) }

  lemma DigitsDecode(a: byte, b: byte, c: byte)
    ensures var d := Digits(a, b, c);
            First(d.0, d.1) == a && Second(d.1, d.2) == b && Third(d.2, d.3) == c
  {
  }

  lemma {:induction false} NoBreaks(bs: Bytes)
    ensures WithoutBreaks(Encode(bs)) == Encode(bs)
  {
    if |bs| >= 3 {
      NoBreaks(bs[3..]);
      var d := Digits(bs[0], bs[1], bs[2]);
      KeepsFour(Symbol(d.0), Symbol(d.1), Symbol(d.2), Symbol(d.3), Encode(bs[3..]));
    } else if |bs| == 2 {
      var d := Digits(bs[0], bs[1], 0);
      KeepsFour(Symbol(d.0), Symbol(d.1), Symbol(d.2), '=', "");
      assert Encode(bs) + "" == Encode(bs);
    } else if |bs| == 1 {
      var d := Digits(bs[0], 0, 0);
      KeepsFour(Symbol(d.0), Symbol(d.1), '=', '=', "");
      assert Encode(bs) + "" == Encode(bs);
    }
  }

  predicate IsBreak(c: char) { c == '\r' || c == '\n' }

  lemma KeepsFour(a: char, b: char, c: char, d: char, rest: string)
    requires !IsBreak(a) && !IsBreak(b) && !IsBreak(c) && !IsBreak(d) && WithoutBreaks(rest) == rest
    ensures WithoutBreaks([a, b, c, d] + rest) == [a, b, c, d] + rest
  {
    KeepsOne(d, rest);
    KeepsOne(c, [d] + rest);
    KeepsOne(b, [c] + ([d] + rest));
    KeepsOne(a, [b] + ([c] + ([d] + rest)));
    assert [a, b, c, d] + rest == [a] + ([b] + ([c] + ([d] + rest)));
  }

  lemma KeepsOne(a: char, rest: string)
    requires !IsBreak(a) && WithoutBreaks(rest) == rest
    ensures WithoutBreaks([a] + rest) == [a] + rest
  {
    assert ([a] + rest)[1..] == rest;
  }

  lemma OneByte(bs: Bytes)
    requires |bs| == 1
    ensures DecodeGroups(Encode(bs)) == Some(bs)
  {
    var d := Digits(bs[0], 0, 0);
    var s := Encode(bs);
    assert |s| == 4 && s[0] == Symbol(d.0) && s[1] == Symbol(d.1) && s[2] == s[3] == '=';
    SymbolsDiffer(d.0);
    SymbolsDiffer(d.1);
    DigitsDecode(bs[0], 0, 0);
    assert bs == [bs[0]];
  }

  lemma TwoBytes(bs: Bytes)
    requires |bs| == 2
    ensures DecodeGroups(Encode(bs)) == Some(bs)
  {
    var d := Digits(bs[0], bs[1], 0);
    var s := Encode(bs);
    assert |s| == 4 && s[0] == Symbol(d.0) && s[1] == Symbol(d.1) && s[2] == Symbol(d.2) && s[3] == '=';
    SymbolsDiffer(d.0);
    SymbolsDiffer(d.1);
    SymbolsDiffer(d.2);
    DigitsDecode(bs[0], bs[1], 0);
    assert bs == [bs[0], bs[1]];
  }

  lemma ThreeBytes(a: byte, b: byte, c: byte, rest: string)
    ensures var d := Digits(a, b, c);
            DecodeGroups([Symbol(d.0), Symbol(d.1), Symbol(d.2), Symbol(d.3)] + rest)
            == match DecodeGroups(rest) case None => None case Some(more) => Some([a, b, c] + more)
  {
    var d := Digits(a, b, c);
    var s := [Symbol(d.0), Symbol(d.1), Symbol(d.2), Symbol(d.3)] + rest;
    assert s[4..] == rest;
    SymbolsDiffer(d.0);
    SymbolsDiffer(d.1);
    SymbolsDiffer(d.2);
    SymbolsDiffer(d.3);
    DigitsDecode(a, b, c);
  }

  lemma {:induction false} GroupsRoundTrip(bs: Bytes)
    ensures DecodeGroups(Encode(bs)) == Some(bs)
  {
    if |bs| == 1 {
      OneByte(bs);
    } else if |bs| == 2 {
      TwoBytes(bs);
    } else if |bs| > 2 {
      GroupsRoundTrip(bs[3..]);
      ThreeBytes(bs[0], bs[1], bs[2], Encode(bs[3..]));
      FirstThree(bs);
    }
  }

  lemma FirstThree(bs: Bytes)
    requires |bs| > 2
    ensures [bs[0], bs[1], bs[2]] + bs[3..] == bs
  {
  }

  /** The alphabet of table 1 in section 4 of RFC 4648: letters, small letters, numerals, plus and slash. */
  lemma SymbolsInOrder(d: digit)
    ensures Symbol(0) == 'A' && Symbol(25) == 'Z' && Symbol(26) == 'a' && Symbol(51) == 'z'
    ensures Symbol(52) == '0' && Symbol(61) == '9' && Symbol(62) == '+' && Symbol(63) == '/'
    ensures d !in {25, 51, 61, 62, 63} ==> Symbol(d + 1) == Symbol(d) + 1 as char
    ensures forall c :: Value(c) == Some(d) <==> c == Symbol(d)
  {
    SymbolsDiffer(d);
  }

  /** Symbols of the alphabet in groups of four, the last group with up to two pads. */
  ghost predicate IsEncoding(s: string, pads: nat) {
    && pads <= 2 && pads <= |s| && |s| % 4 == 0
    && (forall i :: 0 <= i < |s| - pads ==> Value(s[i]).Some?)
    && (forall i :: |s| - pads <= i < |s| ==> s[i] == '=')
  }

  ghost predicate Decodable(s: string) { exists pads :: IsEncoding(s, pads) }

  lemma EncodingRest(s: string, pads: nat)
    requires |s| > 4
    ensures IsEncoding(s, pads)
       <==> IsEncoding(s[4..], pads) && forall i :: 0 <= i < 4 ==> Value(s[i]).Some?
  {
    if IsEncoding(s[4..], pads) && forall i :: 0 <= i < 4 ==> Value(s[i]).Some? {
      assert forall i :: 4 <= i < |s| ==> s[i] == s[4..][i - 4];
    }
  }

  lemma DecodableRest(s: string)
    requires |s| > 4
    ensures Decodable(s) <==> Decodable(s[4..]) && forall i :: 0 <= i < 4 ==> Value(s[i]).Some?
  {
    if pads :| IsEncoding(s, pads) {
      EncodingRest(s, pads);
    }
    if pads :| IsEncoding(s[4..], pads) {
      EncodingRest(s, pads);
    }
  }

  lemma DecodedRest(s: string)
    requires |s| > 4
    ensures DecodeGroups(s).Some? <==> DecodeGroups(s[4..]).Some? && forall i :: 0 <= i < 4 ==> Value(s[i]).Some?
  {
    assert Value(s[0]).Some? && Value(s[1]).Some? && Value(s[2]).Some? && Value(s[3]).Some?
      ==> forall i :: 0 <= i < 4 ==> Value(s[i]).Some?;
  }

  lemma {:induction false} GroupsDecode(s: string)
    ensures DecodeGroups(s).Some? <==> Decodable(s)
    decreases |s|
  {
    if s == "" {
      assert IsEncoding(s, 0);
    } else if |s| == 4 {
      OneGroup(s);
    } else if |s| > 4 {
      GroupsDecode(s[4..]);
      DecodableRest(s);
      DecodedRest(s);
    }
  }

  lemma OneGroup(s: string)
    requires |s| == 4
    ensures DecodeGroups(s).Some? <==> Decodable(s)
  {
    assert s[4..] == "" && DecodeGroups("") == Some([]) && Value('=').None?;
    if pads :| IsEncoding(s, pads) {
      assert Value(s[0]).Some? && Value(s[1]).Some?;
      if pads == 0 {
        assert Value(s[2]).Some? && Value(s[3]).Some?;
        assert DecodeGroups(s).Some?;
      } else if pads == 1 {
        assert Value(s[2]).Some? && s[3] == '=';
        assert DecodeGroups(s).Some?;
      } else {
        assert s[2] == '=' && s[3] == '=';
        assert DecodeGroups(s).Some?;
      }
    }
    if DecodeGroups(s).Some? {
      var pads := if Value(s[2]).None? then 2 else if Value(s[3]).None? then 1 else 0;
      assert Value(s[0]).Some? && Value(s[1]).Some?;
      assert IsEncoding(s, pads);
    }
  }

  /** Exactly what can be decoded, line breaks aside. */
  lemma DecodableIs(s: string)
    ensures Decode(s).Some? <==> Decodable(WithoutBreaks(s))
  {
    GroupsDecode(WithoutBreaks(s));
  }

  /** What is uploaded is what is downloaded. */
  lemma RoundTrip(bs: Bytes)
    ensures Decode(Encode(bs)) == Some(bs)
  {
    NoBreaks(bs);
    GroupsRoundTrip(bs);
  }

  /** Line breaks in the attribute, anywhere, make no difference. */
  lemma {:induction false} BreaksDoNotMatter(bs: Bytes, a: string, b: string, c: char)
    requires a + b == Encode(bs) && IsBreak(c)
    ensures Decode(a + [c] + b) == Some(bs)
  {
    BreakVanishes(a, c, b);
    RoundTrip(bs);
  }

  lemma {:induction false} BreakVanishes(a: string, c: char, b: string)
    requires IsBreak(c)
    ensures WithoutBreaks(a + [c] + b) == WithoutBreaks(a + b)
  {
    if a == "" {
      assert (a + [c] + b)[1..] == b && a + b == b;
    } else {
      BreakVanishes(a[1..], c, b);
      assert (a + [c] + b)[1..] == a[1..] + [c] + b && (a + b)[1..] == a[1..] + b;
    }
  }
}
