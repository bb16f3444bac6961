/**
 * Strings as the repository's scripts use them: JavaScript's `<` on strings, zero-padded decimal
 * numbers, and cutting a string at a separator and gluing the parts back.
 */
module Text {

  // ---------- order ----------

  /** JavaScript's `a < b` on strings: the first differing character decides, a proper prefix is smaller. */
  predicate Less(a: string, b: string) {
    if b == [] then false
    else if a == [] then true
    else a[0] < b[0] || (a[0] == b[0] && Less(a[1..], b[1..]))
  }

  /** `a <= b`, which is `!(b < a)`. */
  predicate AtMost(a: string, b: string) {
    !Less(b, a)
  }

  lemma {:induction false} LessIrreflexive(a: string)
    ensures !Less(a, a)
  {
    if a != [] {
      LessIrreflexive(a[1..]);
    }
  }

  lemma {:induction false} LessTotal(a: string, b: string)
    ensures Less(a, b) || a == b || Less(b, a)
  {
    if a != [] && b != [] && a[0] == b[0] {
      LessTotal(a[1..], b[1..]);
      assert a == [a[0]] + a[1..] && b == [b[0]] + b[1..];
    }
  }

  lemma {:induction false} LessTransitive(a: string, b: string, c: string)
    requires Less(a, b) && Less(b, c)
    ensures Less(a, c)
  {
    if a != [] && a[0] == b[0] && b[0] == c[0] {
      LessTransitive(a[1..], b[1..], c[1..]);
    }
  }

  lemma LessAsymmetric(a: string, b: string)
    requires Less(a, b)
    ensures !Less(b, a) && a != b
  {
    LessIrreflexive(a);
    if Less(b, a) {
      LessTransitive(a, b, a);
    }
  }

  /** On equally long heads, the heads decide first and the tails only break a tie. */
  lemma {:induction false} LessOfConcatenation(a: string, a': string, b: string, b': string)
    requires |a| == |b|
    ensures Less(a + a', b + b') <==> Less(a, b) || (a == b && Less(a', b'))
  {
    if a == [] {
      assert a + a' == a' && b + b' == b';
    } else {
      assert (a + a')[1..] == a[1..] + a' && (b + b')[1..] == b[1..] + b';
      LessOfConcatenation(a[1..], a', b[1..], b');
      assert a == [a[0]] + a[1..] && b == [b[0]] + b[1..];
    }
  }

  // ---------- decimal numbers ----------

  predicate IsDigit(c: char) {
    '0' <= c <= '9'
  }

  predicate AllDigits(s: string) {
    forall i :: 0 <= i < |s| ==> IsDigit(s[i])
  }

  function DigitChar(d: nat): (c: char)
    requires d < 10
    ensures IsDigit(c)
  {
    ('0' as int + d) as char
  }

  function Pow10(width: nat): (p: nat)
    ensures p > 0
  {
    if width == 0 then 1 else 10 * Pow10(width - 1)
  }

  /** `n` in decimal, padded on the left with zeros to exactly `width` digits. */
  function Padded(n: nat, width: nat): (s: string)
    requires n < Pow10(width)
    ensures |s| == width && AllDigits(s)
  {
    if width == 0 then "" else Padded(n / 10, width - 1) + [DigitChar(n % 10)]
  }

  /** The number a string of digits spells. */
  function Number(s: string): nat
    requires AllDigits(s)
  {
    if s == [] then 0 else 10 * Number(s[..|s| - 1]) + (s[|s| - 1] as int - '0' as int)
  }

  /** `n` in decimal with no leading zero: JavaScript's `String(n)` for a whole number. */
  function Decimal(n: nat): (s: string)
    ensures |s| >= 1 && AllDigits(s)
    decreases n
  {
    if n < 10 then [DigitChar(n)] else Decimal(n / 10) + [DigitChar(n % 10)]
  }

  lemma {:induction false} NumberOfPadded(n: nat, width: nat)
    requires n < Pow10(width)
    ensures Number(Padded(n, width)) == n
  {
    if width > 0 {
      NumberOfPadded(n / 10, width - 1);
      var s := Padded(n, width);
      assert s[..|s| - 1] == Padded(n / 10, width - 1);
    }
  }

  lemma {:induction false} PaddedOfNumber(s: string)
    requires AllDigits(s)
    ensures Number(s) < Pow10(|s|) && Padded(Number(s), |s|) == s
  {
    if s != [] {
      PaddedOfNumber(s[..|s| - 1]);
      assert s == s[..|s| - 1] + [s[|s| - 1]];
    }
  }

  /** The digits of a two-digit and of a four-digit number, one by one. */
  lemma TwoDigits(n: nat)
    requires n < 100
    ensures n < Pow10(2) && Padded(n, 2) == [DigitChar(n / 10), DigitChar(n % 10)]
  {
    hide DigitChar;
    assert Pow10(1) == 10 && Pow10(2) == 100;
    assert Padded(n / 10, 1) == Padded(n / 10 / 10, 0) + [DigitChar(n / 10 % 10)];
    assert n / 10 % 10 == n / 10;
  }

  lemma FourDigits(n: nat)
    requires n < 10_000
    ensures n < Pow10(4)
    ensures Padded(n, 4) == [DigitChar(n / 1000), DigitChar(n / 100 % 10), DigitChar(n / 10 % 10), DigitChar(n % 10)]
  {
    hide DigitChar;
    assert Pow10(2) == 100 && Pow10(3) == 1000 && Pow10(4) == 10_000;
    TwoDigits(n / 100);
    assert n / 10 / 10 == n / 100 && n / 100 / 10 == n / 1000;
    assert Padded(n / 10, 3) == Padded(n / 100, 2) + [DigitChar(n / 10 % 10)];
    assert Padded(n, 4) == Padded(n / 10, 3) + [DigitChar(n % 10)];
  }

  lemma DigitOrder(m: nat, n: nat)
    requires m < 10 && n < 10
    ensures Less([DigitChar(m)], [DigitChar(n)]) <==> m < n
    ensures [DigitChar(m)] == [DigitChar(n)] <==> m == n
  {
  }

  /** Equally wide decimal numbers are ordered as strings the way they are ordered as numbers. */
  lemma {:induction false} PaddedOrder(m: nat, n: nat, width: nat)
    requires m < Pow10(width) && n < Pow10(width)
    ensures Less(Padded(m, width), Padded(n, width)) <==> m < n
    ensures Padded(m, width) == Padded(n, width) <==> m == n
  {
    hide Less, Number, DigitChar;
    NumberOfPadded(m, width);
    NumberOfPadded(n, width);
    LessIrreflexive("");
    if width > 0 {
      DigitOrder(m % 10, n % 10);
      PaddedOrder(m / 10, n / 10, width - 1);
      NumberOfPadded(m / 10, width - 1);
      NumberOfPadded(n / 10, width - 1);
      LessOfConcatenation(Padded(m / 10, width - 1), [DigitChar(m % 10)], Padded(n / 10, width - 1), [DigitChar(n % 10)]);
    }
  }

  /** Digits without a leading zero, that spell the number. */
  lemma {:induction false} NumberOfDecimal(n: nat)
    ensures Number(Decimal(n)) == n
    ensures |Decimal(n)| > 1 ==> Decimal(n)[0] != '0'
    decreases n
  {
    if n >= 10 {
      NumberOfDecimal(n / 10);
      var s := Decimal(n);
      assert s[..|s| - 1] == Decimal(n / 10);
    } else {
      assert Decimal(n)[..0] == "";
    }
  }

  /** A number written without leading zeros has four digits exactly from 1000 to 9999. */
  lemma FourDigitDecimal(n: nat)
    ensures |Decimal(n)| == 4 <==> 1000 <= n <= 9999
    ensures 1000 <= n <= 9999 ==> n < Pow10(4) && Decimal(n) == Padded(n, 4)
  {
    hide DigitChar;
    var a, b, c := n / 10, n / 100, n / 1000;
    assert a / 10 == b && b / 10 == c;
    assert Pow10(1) == 10 && Pow10(2) == 100 && Pow10(3) == 1000 && Pow10(4) == 10_000;
    assert n >= 10 ==> Decimal(n) == Decimal(a) + [DigitChar(n % 10)];
    assert a >= 10 ==> Decimal(a) == Decimal(b) + [DigitChar(a % 10)];
    assert b >= 10 ==> Decimal(b) == Decimal(c) + [DigitChar(b % 10)];
    if n < 10_000 {
      assert c < 10 && Padded(c, 1) == Padded(c / 10, 0) + [DigitChar(c % 10)];
      assert Padded(b, 2) == Padded(c, 1) + [DigitChar(b % 10)];
      assert Padded(a, 3) == Padded(b, 2) + [DigitChar(a % 10)];
    }
  }

  /** A number of up to three digits, written without leading zeros. */
  lemma ShortDecimal(n: nat)
    requires 1 <= n <= 999
    ensures n < 10 ==> n < Pow10(1) && Decimal(n) == Padded(n, 1)
    ensures 10 <= n < 100 ==> n < Pow10(2) && Decimal(n) == Padded(n, 2)
    ensures 100 <= n ==> n < Pow10(3) && Decimal(n) == Padded(n, 3)
  {
    hide DigitChar;
    assert Pow10(1) == 10 && Pow10(2) == 100 && Pow10(3) == 1000;
    var a, b := n / 10, n / 100;
    assert a / 10 == b;
    assert n < 10 ==> Padded(n, 1) == Padded(a, 0) + [DigitChar(n)];
    if n >= 10 {
      assert Decimal(n) == Decimal(a) + [DigitChar(n % 10)];
      if n >= 100 {
        assert Decimal(a) == Decimal(b) + [DigitChar(a % 10)];
        assert Padded(b, 1) == Padded(b / 10, 0) + [DigitChar(b % 10)];
        assert Padded(a, 2) == Padded(b, 1) + [DigitChar(a % 10)];
        assert Padded(n, 3) == Padded(a, 2) + [DigitChar(n % 10)];
      } else {
        TwoDigits(n);
      }
    }
  }

  /** The first one, two and three digits of a four-digit number are those numbers' own. */
  lemma LeadingDigits(n: nat)
    requires n < 10_000
    ensures n < Pow10(4) && n / 1000 < Pow10(1) && n / 100 < Pow10(2) && n / 10 < Pow10(3)
    ensures Padded(n, 4)[..1] == Padded(n / 1000, 1)
    ensures Padded(n, 4)[..2] == Padded(n / 100, 2)
    ensures Padded(n, 4)[..3] == Padded(n / 10, 3)
  {
    hide DigitChar;
    assert Pow10(1) == 10 && Pow10(2) == 100 && Pow10(3) == 1000 && Pow10(4) == 10_000;
    var a, b, c := n / 10, n / 100, n / 1000;
    assert a / 10 == b && b / 10 == c;
    assert Padded(n, 4) == Padded(a, 3) + [DigitChar(n % 10)];
    assert Padded(a, 3) == Padded(b, 2) + [DigitChar(a % 10)];
    assert Padded(b, 2) == Padded(c, 1) + [DigitChar(b % 10)];
  }

  /** Past equally long heads, the text that goes on with the smaller character is not the larger one. */
  lemma HeadsDecide(a: string, a': string, b: string, b': string)
    requires |a| == |b| && a' != "" && b' != "" && b'[0] < a'[0]
    ensures Less(a + a', b + b') <==> Less(a, b)
  {
    LessOfConcatenation(a, a', b, b');
  }

  // ---------- cutting and gluing ----------

  /** JavaScript's `s.split(sep)` for a one-character separator: always at least one part. */
  function Split(s: string, sep: char): (parts: seq<string>)
    ensures |parts| >= 1
    ensures forall i :: 0 <= i < |parts| ==> sep !in parts[i]
  {
    if s == [] then [""]
    else
      var rest := Split(s[1..], sep);
      if s[0] == sep then [""] + rest else [[s[0]] + rest[0]] + rest[1..]
  }

  /** JavaScript's `parts.join(glue)`. */
  function Join(parts: seq<string>, glue: string): string {
    if parts == [] then ""
    else if |parts| == 1 then parts[0]
    else parts[0] + glue + Join(parts[1..], glue)
  }

  /** A part free of the separator, followed by the separator, is the first part of the split. */
  lemma {:induction false} SplitOfHead(head: string, sep: char, tail: string)
    requires sep !in head
    ensures Split(head + [sep] + tail, sep) == [head] + Split(tail, sep)
  {
    var s := head + [sep] + tail;
    if head == [] {
      assert s[1..] == tail;
    } else {
      assert s[1..] == head[1..] + [sep] + tail;
      SplitOfHead(head[1..], sep, tail);
      assert head == [head[0]] + head[1..];
    }
  }

  lemma {:induction false} SplitOfWhole(s: string, sep: char)
    requires sep !in s
    ensures Split(s, sep) == [s]
  {
    if s != [] {
      SplitOfWhole(s[1..], sep);
      assert s == [s[0]] + s[1..];
    }
  }

  /** Splitting undoes joining when no part holds the separator. */
  lemma {:induction false} SplitOfJoin(parts: seq<string>, sep: char)
    requires parts != []
    requires forall i :: 0 <= i < |parts| ==> sep !in parts[i]
    ensures Split(Join(parts, [sep]), sep) == parts
  {
    hide Split;
    if |parts| == 1 {
      SplitOfWhole(parts[0], sep);
    } else {
      SplitOfJoin(parts[1..], sep);
      SplitOfHead(parts[0], sep, Join(parts[1..], [sep]));
      assert [parts[0]] + parts[1..] == parts;
    }
  }

  /** JavaScript's `s.split(/\r?\n/)`. */
  function SplitLines(s: string): (lines: seq<string>)
    ensures |lines| >= 1
  {
    var parts := Split(s, '\n');
    WithoutReturns(parts[..|parts| - 1]) + [parts[|parts| - 1]]
  }

  function WithoutReturns(parts: seq<string>): (lines: seq<string>)
    ensures |lines| == |parts|
  {
    if parts == [] then []
    else
      var p := parts[0];
      [if p != "" && p[|p| - 1] == '\r' then p[..|p| - 1] else p] + WithoutReturns(parts[1..])
  }

  /** A line as it is glued: no break in it, and no carriage return before the break that follows. */
  predicate IsPlainLine(line: string) {
    '\n' !in line && (line == "" || line[|line| - 1] != '\r')
  }

  lemma SplitLinesOfWhole(s: string)
    requires '\n' !in s
    ensures SplitLines(s) == [s]
  {
    SplitOfWhole(s, '\n');
    assert WithoutReturns([s][..0]) == [];
  }

  /** A line, a break of either kind, and the rest. */
  lemma SplitLinesOfHead(head: string, tail: string)
    requires IsPlainLine(head)
    ensures SplitLines(head + ['\n'] + tail) == [head] + SplitLines(tail)
    ensures SplitLines(head + ['\r'] + ['\n'] + tail) == [head] + SplitLines(tail)
  {
    hide Split;
    SplitOfHead(head, '\n', tail);
    SplitOfHead(head + ['\r'], '\n', tail);
    FirstReturn(head, head, Split(tail, '\n'));
    FirstReturn(head + ['\r'], head, Split(tail, '\n'));
  }

  lemma FirstReturn(first: string, line: string, rest: seq<string>)
    requires rest != [] && IsPlainLine(line) && first in {line, line + ['\r']}
    ensures var parts := [first] + rest;
            WithoutReturns(parts[..|parts| - 1]) + [parts[|parts| - 1]]
            == [line] + (WithoutReturns(rest[..|rest| - 1]) + [rest[|rest| - 1]])
  {
    var parts := [first] + rest;
    assert parts[..|parts| - 1] == [first] + rest[..|rest| - 1];
    assert ([first] + rest[..|rest| - 1])[1..] == rest[..|rest| - 1];
    assert WithoutReturns([first] + rest[..|rest| - 1]) == [line] + WithoutReturns(rest[..|rest| - 1]);
  }

  lemma {:induction false} SplitLinesOfJoin(lines: seq<string>)
    requires lines != [] && forall i :: 0 <= i < |lines| ==> IsPlainLine(lines[i])
    ensures SplitLines(Join(lines, "\n")) == lines
  {
    hide SplitLines;
    if |lines| == 1 {
      SplitLinesOfWhole(lines[0]);
    } else {
      SplitLinesOfJoin(lines[1..]);
      SplitLinesOfHead(lines[0], Join(lines[1..], "\n"));
      assert lines == [lines[0]] + lines[1..];
    }
  }

  // ---------- white space ----------

  /** JavaScript's `\s`, which is also what `trim` removes. */
  predicate IsSpace(c: char) {
    c in {'\t', '\n', '\U{B}', '\U{C}', '\r', ' ', '\U{A0}', '\U{1680}', '\U{2028}', '\U{2029}', '\U{202F}',
          '\U{205F}', '\U{3000}', '\U{FEFF}'}
    || '\U{2000}' <= c <= '\U{200A}'
  }

  function TrimStart(s: string): (t: string)
    ensures |t| <= |s|
  {
    if s != [] && IsSpace(s[0]) then TrimStart(s[1..]) else s
  }

  function TrimEnd(s: string): (t: string)
    ensures |t| <= |s|
  {
    if s != [] && IsSpace(s[|s| - 1]) then TrimEnd(s[..|s| - 1]) else s
  }

  /** JavaScript's `s.trim()`. */
  function Trim(s: string): string {
    TrimEnd(TrimStart(s))
  }

  /** Nothing to trim at either end. */
  predicate IsTrimmed(s: string) {
    s == [] || (!IsSpace(s[0]) && !IsSpace(s[|s| - 1]))
  }

  lemma {:induction false} TrimEndKeepsHead(s: string)
    requires s == [] || !IsSpace(s[0])
    ensures var t := TrimEnd(s); IsTrimmed(t) && t <= s && (t == [] <==> s == [])
  {
    if s != [] && IsSpace(s[|s| - 1]) {
      assert |s| > 1;
      TrimEndKeepsHead(s[..|s| - 1]);
    }
  }

  lemma {:induction false} TrimStartDropsHead(s: string)
    ensures var t := TrimStart(s); (t == [] || !IsSpace(t[0])) && s[|s| - |t|..] == t
  {
    if s != [] && IsSpace(s[0]) {
      TrimStartDropsHead(s[1..]);
    }
  }

  lemma TrimTrims(s: string)
    ensures IsTrimmed(Trim(s))
    ensures IsTrimmed(s) ==> Trim(s) == s
    ensures forall c :: c in Trim(s) ==> c in s
  {
    TrimStartDropsHead(s);
    TrimEndKeepsHead(TrimStart(s));
  }

  lemma {:induction false} TrimStartTwice(s: string)
    ensures TrimStart(TrimStart(s)) == TrimStart(s)
  {
    if s != [] && IsSpace(s[0]) {
      TrimStartTwice(s[1..]);
    }
  }

  /** What is no white space stops both trims. */
  lemma {:induction false} TrimStartStops(s: string, c: char, tail: string)
    requires !IsSpace(c)
    ensures TrimStart(s + [c] + tail) == TrimStart(s) + [c] + tail
  {
    hide IsSpace;
    if s != [] {
      assert (s + [c] + tail)[1..] == s[1..] + [c] + tail;
      TrimStartStops(s[1..], c, tail);
    }
  }

  lemma {:induction false} TrimEndStops(head: string, c: char, s: string)
    requires !IsSpace(c)
    ensures TrimEnd(head + [c] + s) == head + [c] + TrimEnd(s)
  {
    hide IsSpace;
    if s != [] {
      var all := head + [c] + s;
      assert all[..|all| - 1] == head + [c] + s[..|s| - 1];
      TrimEndStops(head, c, s[..|s| - 1]);
    }
  }

  /** Trimming the end first changes nothing. */
  lemma {:induction false} TrimAfterTrimEnd(s: string)
    ensures Trim(TrimEnd(s)) == Trim(s)
  {
    hide IsSpace;
    if s != [] && IsSpace(s[|s| - 1]) {
      var front := s[..|s| - 1];
      TrimAfterTrimEnd(front);
      TrimOfTrailing(front, s[|s| - 1]);
      assert s == front + [s[|s| - 1]];
    }
  }

  lemma {:induction false} TrimOfTrailing(s: string, c: char)
    requires IsSpace(c)
    ensures Trim(s + [c]) == Trim(s)
  {
    hide IsSpace;
    if s == [] {
      assert s + [c] == [c] && [c][1..] == [];
    } else if IsSpace(s[0]) {
      assert (s + [c])[1..] == s[1..] + [c];
      TrimOfTrailing(s[1..], c);
    } else {
      assert (s + [c])[..|s|] == s;
    }
  }

  /** JavaScript's `s.indexOf(c)`: where `c` first occurs, or -1. */
  function IndexOf(s: string, c: char): (i: int)
    ensures -1 <= i < |s|
    ensures i == -1 <==> c !in s
    ensures i >= 0 ==> s[i] == c && c !in s[..i]
  {
    if s == [] then -1
    else if s[0] == c then 0
    else
      var rest := IndexOf(s[1..], c);
      assert s == [s[0]] + s[1..];
      assert rest >= 0 ==> s[..rest + 1] == [s[0]] + s[1..][..rest];
      if rest == -1 then -1 else rest + 1
  }

  lemma IndexOfFirst(head: string, c: char, tail: string)
    requires c !in head
    ensures IndexOf(head + [c] + tail, c) == |head|
  {
    var s := head + [c] + tail;
    var i := IndexOf(s, c);
    assert s[|head|] == c;
    assert forall k :: 0 <= k < |head| ==> s[k] == head[k];
    assert forall k :: 0 <= k < i ==> s[..i][k] == s[k];
  }

  /** Glued with a separator and a space, parts free of the separator come apart again, all but the first led by the space. */
  lemma {:induction false} SplitOfSpacedJoin(parts: seq<string>, sep: char)
    requires parts != [] && sep != ' '
    requires forall i :: 0 <= i < |parts| ==> sep !in parts[i]
    ensures Split(Join(parts, [sep, ' ']), sep) == [parts[0]] + Spaced(parts[1..])
  {
    if |parts| == 1 {
      SplitOfWhole(parts[0], sep);
    } else {
      var rest := Join(parts[1..], [sep, ' ']);
      SplitOfSpacedJoin(parts[1..], sep);
      SplitOfHead(parts[0], sep, [' '] + rest);
      assert Join(parts, [sep, ' ']) == parts[0] + [sep] + ([' '] + rest);
      assert ([' '] + rest)[1..] == rest;
    }
  }

  function Spaced(parts: seq<string>): (spaced: seq<string>)
    ensures |spaced| == |parts|
    ensures forall i :: 0 <= i < |parts| ==> spaced[i] == [' '] + parts[i]
  {
    if parts == [] then [] else [[' '] + parts[0]] + Spaced(parts[1..])
  }
}
