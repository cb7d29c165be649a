/**
 The parts of Go's `strings` and `strconv` packages the repository relies on,
 over strings taken as sequences of code points, and 64-bit integers.
 */
module Text {
  import opened Wrappers

  const MIN_INT: int := -0x8000_0000_0000_0000
  const MAX_INT: int := 0x7FFF_FFFF_FFFF_FFFF

  predicate IsInt64(n: int) {
    MIN_INT <= n <= MAX_INT
  }

  /** The 64-bit two's complement value an unbounded result is stored as. */
  function Wrap64(n: int): (r: int)
    ensures IsInt64(r)
    ensures r == n <==> IsInt64(n)
    ensures (n - r) % 0x1_0000_0000_0000_0000 == 0
  {
    (n - MIN_INT) % 0x1_0000_0000_0000_0000 + MIN_INT
  }

  /** `unicode.IsSpace`. */
  predicate IsSpace(c: char) {
    || '\t' <= c <= '\r' || c == ' ' || c == '\U{85}' || c == '\U{A0}' || c == '\U{1680}'
    || '\U{2000}' <= c <= '\U{200A}' || c == '\U{2028}' || c == '\U{2029}' || c == '\U{202F}'
    || c == '\U{205F}' || c == '\U{3000}'
  }

  /** The white space of Unicode, character by character. */
  lemma SpacesAre(c: char)
    ensures IsSpace(c) <==> c in {
      '\U{9}', '\U{A}', '\U{B}', '\U{C}', '\U{D}', '\U{20}', '\U{85}', '\U{A0}', '\U{1680}', '\U{2000}', '\U{2001}',
      '\U{2002}', '\U{2003}', '\U{2004}', '\U{2005}', '\U{2006}', '\U{2007}', '\U{2008}', '\U{2009}', '\U{200A}',
      '\U{2028}', '\U{2029}', '\U{202F}', '\U{205F}', '\U{3000}'}
  {
  }

  predicate AllSpace(s: string) {
    forall c | c in s :: IsSpace(c)
  }

  /** Neither the first nor the last character is white space. */
  predicate IsTrimmed(s: string) {
    s != "" ==> !IsSpace(s[0]) && !IsSpace(s[|s| - 1])
  }

  function TrimSpace(s: string): (r: string)
    ensures IsTrimmed(r)
  {
    if s == "" then s
    else if IsSpace(s[0]) then TrimSpace(s[1..])
    else if IsSpace(s[|s| - 1]) then TrimSpace(s[..|s| - 1])
    else s
  }

  lemma {:induction false} TrimRight(core: string, after: string)
    requires core != "" && IsTrimmed(core) && AllSpace(after)
    ensures TrimSpace(core + after) == core
    decreases |after|
  {
    var s := core + after;
    if after == "" {
      assert s == core;
    } else {
      var last := |after| - 1;
      assert s[|s| - 1] == after[last] && after[last] in after;
      assert s[..|s| - 1] == core + after[..last];
      TrimRight(core, after[..last]);
    }
  }

  lemma {:induction false} TrimLeft(before: string, rest: string)
    requires AllSpace(before)
    ensures TrimSpace(before + rest) == TrimSpace(rest)
  {
    if before == "" {
      assert before + rest == rest;
    } else {
      assert (before + rest)[0] == before[0] && before[0] in before;
      assert (before + rest)[1..] == before[1..] + rest;
      TrimLeft(before[1..], rest);
    }
  }

  /** White space around a trimmed core is exactly what `TrimSpace` removes. */
  lemma TrimPadded(before: string, core: string, after: string)
    requires AllSpace(before) && AllSpace(after) && IsTrimmed(core)
    ensures TrimSpace(before + core + after) == core
  {
    assert before + core + after == before + (core + after);
    TrimLeft(before, core + after);
    if core == "" {
      assert core + after == after + "";
      TrimLeft(after, "");
    } else {
      TrimRight(core, after);
    }
  }

  lemma {:induction false} SplitLeft(s: string) returns (before: string, rest: string)
    ensures s == before + rest && AllSpace(before) && TrimSpace(rest) == TrimSpace(s)
    ensures rest != "" ==> !IsSpace(rest[0])
  {
    if s != "" && IsSpace(s[0]) {
      var b, r := SplitLeft(s[1..]);
      before, rest := [s[0]] + b, r;
    } else {
      before, rest := "", s;
    }
  }

  lemma {:induction false} SplitRight(s: string) returns (after: string)
    requires s != "" ==> !IsSpace(s[0])
    ensures s == TrimSpace(s) + after && AllSpace(after)
  {
    if s != "" && IsSpace(s[|s| - 1]) {
      var a := SplitRight(s[..|s| - 1]);
      after := a + [s[|s| - 1]];
    } else {
      after := "";
    }
  }

  /** Every string is its trimmed core between white space. */
  lemma TrimSplits(s: string) returns (before: string, after: string)
    ensures AllSpace(before) && AllSpace(after)
    ensures s == before + TrimSpace(s) + after
  {
    var rest;
    before, rest := SplitLeft(s);
    after := SplitRight(rest);
  }

  lemma SplitAt(s: string, i: nat)
    requires i < |s|
    ensures s == s[..i] + [s[i]] + s[i + 1..]
  {
  }

  /** `strings.Index(s, string(c))`, with `|s|` for "absent". */
  function IndexOf(s: string, c: char): (i: nat)
    ensures i <= |s|
    ensures c !in s[..i]
    ensures i < |s| ==> s[i] == c
  {
    if s == "" || s[0] == c then 0
    else
      var i := 1 + IndexOf(s[1..], c);
      assert s[..i] == [s[0]] + s[1..][..i - 1];
      i
  }

  /** The first comma of `head + "," + tail` is the one between them. */
  lemma IndexOfJoined(head: string, c: char, tail: string)
    requires c !in head
    ensures IndexOf(head + [c] + tail, c) == |head|
  {
    var s := head + [c] + tail;
    assert s[|head|] == c;
    assert forall i | 0 <= i < |head| :: s[i] == head[i];
  }

  /**
   `unicode.ToUpper` as far as it can produce a letter A-Z. Besides a-z only
   U+017F and U+0131 do; a character mapped elsewhere by Go is left alone here,
   which no comparison with ASCII letters can tell apart.
   */
  function ToUpperRune(c: char): char {
    if 'a' <= c <= 'z' then c - 'a' + 'A'
    else if c == '\U{17F}' then 'S'
    else if c == '\U{131}' then 'I'
    else c
  }

  function ToUpper(s: string): (r: string)
    ensures |r| == |s|
    ensures forall i | 0 <= i < |s| :: r[i] == ToUpperRune(s[i])
  {
    seq(|s|, i requires 0 <= i < |s| => ToUpperRune(s[i]))
  }

  predicate IsDigit(c: char) {
    '0' <= c <= '9'
  }

  predicate AllDigits(s: string) {
    forall c | c in s :: IsDigit(c)
  }

  function DigitValue(c: char): (d: nat)
    requires IsDigit(c)
    ensures d < 10
  {
    (c - '0') as int
  }

  function Decimal(s: string): nat
    requires AllDigits(s)
  {
    if s == "" then 0 else 10 * Decimal(s[..|s| - 1]) + DigitValue(s[|s| - 1])
  }

  predicate HasSign(s: string) {
    s != "" && (s[0] == '+' || s[0] == '-')
  }

  /** The digits of a signed decimal numeral. */
  function Digits(s: string): string {
    if HasSign(s) then s[1..] else s
  }

  /** `strconv.Atoi`: an optional sign, at least one digit, a 64-bit value. */
  function Atoi(s: string): Option<int> {
    var digits := Digits(s);
    if digits == "" || !AllDigits(digits) then None
    else
      var size: int := Decimal(digits);
      var n := if s[0] == '-' then -size else size;
      if IsInt64(n) then Some(n) else None
  }

  /** The canonical decimal numeral of a natural number. */
  function Itoa(n: nat): (s: string)
    ensures s != "" && AllDigits(s) && Decimal(s) == n
  {
    var d := [(n % 10) as char + '0'];
    assert IsDigit(d[0]) && DigitValue(d[0]) == n % 10;
    if n < 10 then
      assert Decimal(d[..|d| - 1]) == 0;
      d
    else
      var s := Itoa(n / 10) + d;
      assert s[..|s| - 1] == Itoa(n / 10);
      s
  }

  /** Printing a 64-bit natural and reading it back is the identity. */
  lemma AtoiItoa(n: nat)
    requires n <= MAX_INT
    ensures Atoi(Itoa(n)) == Some(n)
  {
    var s := Itoa(n);
    assert s[0] in s && IsDigit(s[0]);
  }
}
