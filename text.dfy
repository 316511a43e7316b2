/** String helpers the patch builder relies on: the order used to sort
    names, splitting text into lines the way `string.Split` does with the
    separators "\r\n" and "\n", and decimal formatting of integers. */
module Text {

  // ---------------------------------------------------------------------
  // Ordinal order on strings
  // ---------------------------------------------------------------------

  /** Lexicographic order by character code. */
  predicate StrLt(a: string, b: string)
    decreases |a|
  {
    if a == [] then b != []
    else if b == [] then false
    else if a[0] != b[0] then a[0] < b[0]
    else StrLt(a[1..], b[1..])
  }

  lemma {:induction false} StrLtIrreflexive(a: string)
    ensures !StrLt(a, a)
  {
    if a != [] {
      StrLtIrreflexive(a[1..]);
    }
  }

  lemma {:induction false} StrLtTotal(a: string, b: string)
    ensures a == b || StrLt(a, b) || StrLt(b, a)
  {
    if a != [] && b != [] && a[0] == b[0] {
      StrLtTotal(a[1..], b[1..]);
      if a[1..] == b[1..] {
        assert a == [a[0]] + a[1..] && b == [b[0]] + b[1..];
      }
    }
  }

  lemma {:induction false} StrLtTrans(a: string, b: string, c: string)
    requires StrLt(a, b) && StrLt(b, c)
    ensures StrLt(a, c)
  {
    if a != [] && a[0] == b[0] && b[0] == c[0] {
      StrLtTrans(a[1..], b[1..], c[1..]);
    }
  }

  lemma StrLtTransAll()
    ensures forall a, b, c :: StrLt(a, b) && StrLt(b, c) ==> StrLt(a, c)
  {
    forall a, b, c | StrLt(a, b) && StrLt(b, c) ensures StrLt(a, c) {
      StrLtTrans(a, b, c);
    }
  }

  predicate StrictlySorted(s: seq<string>) {
    forall i, j :: 0 <= i < j < |s| ==> StrLt(s[i], s[j])
  }

  /** A strictly sorted sequence holds no string twice. */
  lemma StrictlySortedDistinct(s: seq<string>, i: int, j: int)
    requires StrictlySorted(s)
    requires 0 <= i < |s| && 0 <= j < |s| && i != j
    ensures s[i] != s[j]
  {
    if i < j { StrLtIrreflexive(s[i]); } else { StrLtIrreflexive(s[j]); }
  }

  /** Inserts `x` into a strictly sorted sequence unless it is already there. */
  function InsertDistinct(x: string, s: seq<string>): (r: seq<string>)
    requires StrictlySorted(s)
    ensures StrictlySorted(r)
    ensures forall y :: y in r <==> y == x || y in s
  {
    if s == [] then [x]
    else if x == s[0] then s
    else if StrLt(x, s[0]) then
      StrLtTransAll();
      [x] + s
    else
      StrLtTotal(x, s[0]);
      var rest := InsertDistinct(x, s[1..]);
      assert forall y :: y in s <==> y == s[0] || y in s[1..] by {
        assert s == [s[0]] + s[1..];
      }
      assert forall k :: 0 <= k < |rest| ==> StrLt(s[0], rest[k]) by {
        forall k | 0 <= k < |rest| ensures StrLt(s[0], rest[k]) {
          assert rest[k] in rest;
          if rest[k] != x {
            var m :| 0 <= m < |s[1..]| && s[1..][m] == rest[k];
            assert s[m + 1] == rest[k];
          }
        }
      }
      [s[0]] + rest
  }

  /** The distinct strings of `s` in ascending order: the keys of a
      group-by followed by an order-by on those keys. */
  function SortDistinct(s: seq<string>): (r: seq<string>)
    ensures StrictlySorted(r)
    ensures forall y :: y in r <==> y in s
  {
    if s == [] then []
    else
      assert forall y :: y in s <==> y == s[0] || y in s[1..] by {
        assert s == [s[0]] + s[1..];
      }
      InsertDistinct(s[0], SortDistinct(s[1..]))
  }

  // ---------------------------------------------------------------------
  // Splitting into lines
  // ---------------------------------------------------------------------

  /** No line break character in `s`. */
  predicate NoBreak(s: string) {
    forall c :: c in s ==> c != '\n' && c != '\r'
  }

  /** `s` split at every "\r\n" or "\n", where `cur` is the piece read so far.
      At each position "\r\n" is tried before "\n"; a lone '\r' is kept. */
  function SplitLinesFrom(s: string, cur: string): (r: seq<string>)
    requires '\n' !in cur
    ensures |r| >= 1
    ensures forall i :: 0 <= i < |r| ==> '\n' !in r[i]
    decreases |s|
  {
    if s == [] then [cur]
    else if s[0] == '\n' then [cur] + SplitLinesFrom(s[1..], "")
    else if |s| >= 2 && s[0] == '\r' && s[1] == '\n' then [cur] + SplitLinesFrom(s[2..], "")
    else SplitLinesFrom(s[1..], cur + [s[0]])
  }

  /** `s` split at every "\r\n" or "\n", keeping empty pieces. */
  function SplitLines(s: string): (r: seq<string>)
    ensures |r| >= 1
    ensures forall i :: 0 <= i < |r| ==> '\n' !in r[i]
  {
    SplitLinesFrom(s, "")
  }

  /** The pieces joined back with "\n". */
  function JoinLines(ls: seq<string>): string
    requires |ls| >= 1
  {
    if |ls| == 1 then ls[0] else ls[0] + "\n" + JoinLines(ls[1..])
  }

  /** `s` with every "\r\n" replaced by "\n". */
  function CrlfToLf(s: string): string {
    if s == [] then []
    else if |s| >= 2 && s[0] == '\r' && s[1] == '\n' then "\n" + CrlfToLf(s[2..])
    else [s[0]] + CrlfToLf(s[1..])
  }

  lemma {:induction false} SplitJoinFrom(s: string, cur: string)
    requires '\n' !in cur
    ensures JoinLines(SplitLinesFrom(s, cur)) == cur + CrlfToLf(s)
    decreases |s|
  {
    if s == [] {
    } else if s[0] == '\n' {
      SplitJoinFrom(s[1..], "");
      assert ([cur] + SplitLinesFrom(s[1..], ""))[1..] == SplitLinesFrom(s[1..], "");
    } else if |s| >= 2 && s[0] == '\r' && s[1] == '\n' {
      SplitJoinFrom(s[2..], "");
      assert ([cur] + SplitLinesFrom(s[2..], ""))[1..] == SplitLinesFrom(s[2..], "");
    } else {
      SplitJoinFrom(s[1..], cur + [s[0]]);
      assert cur + [s[0]] + CrlfToLf(s[1..]) == cur + ([s[0]] + CrlfToLf(s[1..]));
    }
  }

  /** Joining the pieces with "\n" gives back the text, with its "\r\n"
      breaks read as "\n": splitting loses nothing else. */
  lemma SplitJoin(s: string)
    ensures JoinLines(SplitLines(s)) == CrlfToLf(s)
  {
    SplitJoinFrom(s, "");
  }

  /** Each line followed by "\n", as `StringBuilder.AppendLine` produces them. */
  function Terminated(lines: seq<string>): string {
    if lines == [] then "" else lines[0] + "\n" + Terminated(lines[1..])
  }

  lemma {:induction false} SplitLineThenRest(line: string, rest: string, cur: string)
    requires NoBreak(line) && NoBreak(cur)
    ensures SplitLinesFrom(line + "\n" + rest, cur) == [cur + line] + SplitLinesFrom(rest, "")
    decreases |line|
  {
    var s := line + "\n" + rest;
    if line == [] {
      assert s == "\n" + rest;
      assert s[1..] == rest;
      assert cur + line == cur;
      assert '\n' !in cur;
    } else {
      assert s[0] == line[0];
      assert s[1..] == line[1..] + "\n" + rest;
      assert forall c :: c in line[1..] ==> c in line;
      assert line[0] in line;
      SplitLineThenRest(line[1..], rest, cur + [line[0]]);
      assert cur + [line[0]] + line[1..] == cur + line;
    }
  }

  /** Splitting text made of terminated lines gives those lines back,
      followed by one empty piece after the last terminator. */
  lemma {:induction false} SplitTerminated(lines: seq<string>)
    requires forall i :: 0 <= i < |lines| ==> NoBreak(lines[i])
    ensures SplitLines(Terminated(lines)) == lines + [""]
  {
    if lines != [] {
      SplitLineThenRest(lines[0], Terminated(lines[1..]), "");
      SplitTerminated(lines[1..]);
      assert "" + lines[0] == lines[0];
      assert lines == [lines[0]] + lines[1..];
    }
  }

  // ---------------------------------------------------------------------
  // Decimal integers
  // ---------------------------------------------------------------------

  predicate IsDigit(c: char) {
    '0' <= c <= '9'
  }

  function DigitChar(d: nat): (c: char)
    requires d < 10
    ensures IsDigit(c) && c as int - '0' as int == d
  {
    ('0' as int + d) as char
  }

  /** The decimal digits of `n`, without leading zeros. */
  function NatToString(n: nat): (r: string)
    ensures |r| >= 1 && forall i :: 0 <= i < |r| ==> IsDigit(r[i])
    ensures r[0] == '0' ==> n == 0
  {
    if n < 10 then [DigitChar(n)] else NatToString(n / 10) + [DigitChar(n % 10)]
  }

  /** C# `int.ToString()`: a minus sign for negative numbers, then the digits. */
  function IntToString(i: int): string {
    if i < 0 then "-" + NatToString(-i) else NatToString(i)
  }

  /** The number a string of decimal digits denotes. */
  function ParseNat(s: string): nat
    requires forall i :: 0 <= i < |s| ==> IsDigit(s[i])
  {
    if s == [] then 0
    else
      assert IsDigit(s[|s| - 1]);
      ParseNat(s[..|s| - 1]) * 10 + (s[|s| - 1] as int - '0' as int)
  }

  /** An optional minus sign followed by decimal digits. */
  predicate IsIntText(s: string) {
    |s| >= 1 && (s[0] == '-' || IsDigit(s[0])) && forall i :: 1 <= i < |s| ==> IsDigit(s[i])
  }

  function ParseInt(s: string): int
    requires IsIntText(s)
  {
    if s[0] == '-' then -(ParseNat(s[1..]) as int) else ParseNat(s)
  }

  lemma {:induction false} ParseNatToString(n: nat)
    ensures ParseNat(NatToString(n)) == n
  {
    if n >= 10 {
      ParseNatToString(n / 10);
      var s := NatToString(n);
      assert s[..|s| - 1] == NatToString(n / 10);
    }
  }

  /** Formatting an integer and parsing it back gives the integer. */
  lemma IntToStringRoundTrip(i: int)
    ensures IsIntText(IntToString(i)) && ParseInt(IntToString(i)) == i
  {
    var s := IntToString(i);
    if i < 0 {
      ParseNatToString(-i);
      assert s[1..] == NatToString(-i);
    } else {
      ParseNatToString(i);
    }
  }
}
