/** The string operations of Go's `strings` package that the repository relies on. */
module GoText {

  datatype Option<+T> = None | Some(value: T)

  datatype Result<+T, +E> = Ok(value: T) | Err(error: E)

  /** `strings.Join`. */
  function Join(parts: seq<string>, sep: string): string {
    if parts == [] then "" else if |parts| == 1 then parts[0] else parts[0] + sep + Join(parts[1..], sep)
  }

  /** The text before the first `sep`, or all of `s`: `strings.Split(s, sep)[0]`. */
  function Before(s: string, sep: char): (r: string)
    ensures sep !in r
    ensures r <= s && (sep in s ==> |r| < |s| && s[|r|] == sep) && (sep !in s ==> r == s)
  {
    if s == "" || s[0] == sep then "" else [s[0]] + Before(s[1..], sep)
  }

  /** `strings.Cut`: `None` when `sep` does not occur. */
  function Cut(s: string, sep: char): Option<(string, string)> {
    if sep in s then Some((Before(s, sep), s[|Before(s, sep)| + 1..])) else None
  }

  /** The only way to cut a text at its first separator. */
  lemma {:induction false} CutAt(a: string, sep: char, b: string)
    requires sep !in a
    ensures Before(a + [sep] + b, sep) == a && Cut(a + [sep] + b, sep) == Some((a, b))
  {
    if a != "" {
      assert (a + [sep] + b)[1..] == a[1..] + [sep] + b;
      CutAt(a[1..], sep, b);
    }
    assert (a + [sep] + b)[|a|] == sep;
  }

  function TrimPrefix(s: string, prefix: string): string {
    if prefix <= s then s[|prefix|..] else s
  }

  /** `strings.Contains`. */
  predicate Contains(s: string, part: string) {
    exists i :: 0 <= i <= |s| && part <= s[i..]
  }

  /** `strings.TrimSuffix(s, ".")`. */
  function TrimDot(s: string): string {
    if s != "" && s[|s| - 1] == '.' then s[..|s| - 1] else s
  }

  /** `unicode.IsSpace`, the White_Space property of Unicode. */
  predicate IsSpace(c: char) {
    || c == ' ' || '\t' <= c <= '\r' || c == '\U{0085}' || c == '\U{00A0}' || c == '\U{1680}'
    || '\U{2000}' <= c <= '\U{200A}' || c == '\U{2028}' || c == '\U{2029}'
    || c == '\U{202F}' || c == '\U{205F}' || c == '\U{3000}'
  }

  /** The code points of White_Space: controls, the spaces of Latin-1, Ogham, those from en quad on, and separators. */
  lemma SpacesAre(c: char)
    ensures IsSpace(c) <==>
      c as int in {9, 10, 11, 12, 13, 32, 133, 160, 5760, 8192, 8193, 8194, 8195, 8196, 8197, 8198, 8199, 8200, 8201,
                   8202, 8232, 8233, 8239, 8287, 12288}
  {
  }

  predicate NoSpace(s: string) { forall i :: 0 <= i < |s| ==> !IsSpace(s[i]) }

  /** What `strings.Fields` yields: non-empty and free of white space. */
  predicate IsWord(w: string) { w != "" && NoSpace(w) }

  predicate AreWords(ws: seq<string>) { forall i :: 0 <= i < |ws| ==> IsWord(ws[i]) }

  function WordLength(s: string): (n: nat)
    ensures n <= |s| && NoSpace(s[..n]) && (n < |s| ==> IsSpace(s[n]))
  {
    if s == "" || IsSpace(s[0]) then 0 else
      var n := 1 + WordLength(s[1..]);
      assert s[1..][..n - 1] == s[1..n];
      assert forall i :: 0 < i < n ==> s[i] == s[1..][i - 1];
      n
  }

  /** `strings.Fields`. */
  function Fields(s: string): (ws: seq<string>)
    ensures AreWords(ws)
    decreases |s|
  {
    if s == "" then [] else if IsSpace(s[0]) then Fields(s[1..]) else
      [s[..WordLength(s)]] + Fields(s[WordLength(s)..])
  }

  lemma {:induction false} WordLengthIs(w: string, rest: string)
    requires NoSpace(w) && (rest == "" || IsSpace(rest[0]))
    ensures WordLength(w + rest) == |w|
  {
    if w == "" {
      assert w + rest == rest;
    } else {
      assert (w + rest)[1..] == w[1..] + rest;
      WordLengthIs(w[1..], rest);
    }
  }

  lemma {:induction false} FieldsWord(w: string, rest: string)
    requires IsWord(w) && (rest == "" || IsSpace(rest[0]))
    ensures Fields(w + rest) == [w] + Fields(rest)
  {
    var s := w + rest;
    WordLengthIs(w, rest);
    assert s[0] == w[0] && s[..|w|] == w && s[|w|..] == rest;
  }

  lemma {:induction false} FieldsBlank(blank: string, rest: string)
    requires forall i :: 0 <= i < |blank| ==> IsSpace(blank[i])
    ensures Fields(blank + rest) == Fields(rest)
  {
    if blank == "" {
      assert blank + rest == rest;
    } else {
      assert (blank + rest)[1..] == blank[1..] + rest;
      FieldsBlank(blank[1..], rest);
    }
  }

  /** Text that continues a word list: nothing, or a space and the joined words. */
  function Tail(ws: seq<string>): string { if ws == [] then "" else " " + Join(ws, " ") }

  lemma JoinCons(w: string, ws: seq<string>)
    ensures Join([w] + ws, " ") == w + Tail(ws)
  {
    assert ([w] + ws)[1..] == ws;
    assert w + " " + Join(ws, " ") == w + (" " + Join(ws, " "));
  }

  lemma {:induction false} FieldsTail(ws: seq<string>)
    requires AreWords(ws)
    ensures Fields(Tail(ws)) == ws
  {
    if ws != [] {
      FieldsBlank(" ", Join(ws, " "));
      JoinCons(ws[0], ws[1..]);
      assert ws == [ws[0]] + ws[1..];
      FieldsWord(ws[0], Tail(ws[1..]));
      FieldsTail(ws[1..]);
    }
  }

  /** `strconv.Itoa` of a natural number. */
  function Itoa(n: nat): string {
    if n < 10 then [Digit(n)] else Itoa(n / 10) + [Digit(n % 10)]
  }

  function Digit(d: nat): char
    requires d < 10
  {
    '0' + d as char
  }

  /** The number that decimal digits stand for. */
  function Decimal(s: string): int {
    if s == "" then 0 else 10 * Decimal(s[..|s| - 1]) + (s[|s| - 1] as int - '0' as int)
  }

  lemma {:induction false} ItoaIsRead(n: nat)
    ensures Decimal(Itoa(n)) == n && AreDigits(Itoa(n))
  {
    if n < 10 {
      assert Itoa(n)[..0] == "";
    } else {
      ItoaIsRead(n / 10);
      assert Itoa(n)[..|Itoa(n)| - 1] == Itoa(n / 10);
    }
  }

  predicate AreDigits(s: string) { s != "" && forall i :: 0 <= i < |s| ==> '0' <= s[i] <= '9' }

  const MAX_INT := 0x7fff_ffff_ffff_ffff

  function Clamp(n: int): int { if n > MAX_INT then MAX_INT else if n < -MAX_INT - 1 then -MAX_INT - 1 else n }

  /** The value `strconv.Atoi` returns whatever its error: 0 for what is no number, the nearest int out of range. */
  function Atoi(s: string): int {
    if AreDigits(s) then Clamp(Decimal(s))
    else if s != "" && s[0] == '-' && AreDigits(s[1..]) then Clamp(-Decimal(s[1..]))
    else if s != "" && s[0] == '+' && AreDigits(s[1..]) then Clamp(Decimal(s[1..]))
    else 0
  }

  /** A printed int is read back, with either sign. */
  lemma AtoiReads(n: nat)
    requires n <= MAX_INT
    ensures Atoi(Itoa(n)) == n && Atoi("+" + Itoa(n)) == n && Atoi("-" + Itoa(n)) + n == 0
  {
    ItoaIsRead(n);
    var sign, digits := "+" + Itoa(n), Itoa(n);
    assert sign[0] == '+' && sign[1..] == digits;
    assert ("-" + digits)[0] == '-' && ("-" + digits)[1..] == digits;
  }

  /** What is no number reads as 0, and what is out of range as the nearest int. */
  lemma AtoiGivesUp(s: string, n: nat)
    ensures (s == "" || exists i :: 0 < i < |s| && !('0' <= s[i] <= '9')) ==> Atoi(s) == 0
    ensures n > 9223372036854775807 ==>
      Atoi(Itoa(n)) == 9223372036854775807 && Atoi("-" + Itoa(n)) + 9223372036854775808 == 0
  {
    ItoaIsRead(n);
    assert ("-" + Itoa(n))[0] == '-' && ("-" + Itoa(n))[1..] == Itoa(n);
    if i :| 0 < i < |s| && !('0' <= s[i] <= '9') {
      assert s[1..][i - 1] == s[i];
    }
  }
}
