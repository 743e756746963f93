/** Text helpers shared by the importers: Python's `strip`, digit translation, decimal
    notation and splitting. */
module Text {
  import opened Options

  /** `str.isspace` for one character. */
  predicate IsSpace(c: char) {
    var n := c as int;
    || 9 <= n <= 13 || 28 <= n <= 32 || n == 0x85 || n == 0xA0 || n == 0x1680
    || 0x2000 <= n <= 0x200A || n == 0x2028 || n == 0x2029 || n == 0x202F || n == 0x205F || n == 0x3000
  }

  function StripLeft(s: string): (r: string)
    ensures |r| <= |s|
    ensures r != [] ==> !IsSpace(r[0])
  {
    if s != [] && IsSpace(s[0]) then StripLeft(s[1..]) else s
  }

  function StripRight(s: string): (r: string)
    ensures |r| <= |s| && r == s[..|r|]
    ensures r != [] ==> !IsSpace(r[|r| - 1])
  {
    if s != [] && IsSpace(s[|s| - 1]) then StripRight(s[..|s| - 1]) else s
  }

  function Strip(s: string): (r: string)
    ensures |r| <= |s|
    ensures r != [] ==> !IsSpace(r[0]) && !IsSpace(r[|r| - 1])
  {
    StripRight(StripLeft(s))
  }

  /** Stripping twice is stripping once, and text without outer spaces is kept. */
  lemma StripIsStable(s: string)
    requires s == [] || (!IsSpace(s[0]) && !IsSpace(s[|s| - 1]))
    ensures Strip(s) == s
  {
  }

  // ---------------------------------------------------------------- digits

  /** Persian and Arabic-Indic digits become ASCII digits. */
  function AsciiDigit(c: char): char {
    var n := c as int;
    if 0x06F0 <= n <= 0x06F9 then (n - 0x06F0 + 48) as char
    else if 0x0660 <= n <= 0x0669 then (n - 0x0660 + 48) as char
    else c
  }

  function Translate(s: string): (r: string)
    ensures |r| == |s|
    ensures forall i :: 0 <= i < |s| ==> r[i] == AsciiDigit(s[i])
  {
    if s == [] then [] else [AsciiDigit(s[0])] + Translate(s[1..])
  }

  predicate IsAsciiDigit(c: char) { '0' <= c <= '9' }

  predicate AllAsciiDigits(s: string) {
    forall i :: 0 <= i < |s| ==> IsAsciiDigit(s[i])
  }

  function DigitChar(d: nat): (c: char)
    requires d < 10
    ensures IsAsciiDigit(c)
  {
    (d + 48) as char
  }

  function DigitValue(c: char): (d: nat)
    requires IsAsciiDigit(c)
    ensures d < 10
  {
    c as int - 48
  }

  /** `str(n)`. */
  function Decimal(n: nat): (s: string)
    ensures s != [] && AllAsciiDigits(s)
    ensures s[0] == '0' ==> n == 0
  {
    if n < 10 then [DigitChar(n)] else Decimal(n / 10) + [DigitChar(n % 10)]
  }

  /** `int(s)` for a string of ASCII digits. */
  function Number(s: string): nat
    requires AllAsciiDigits(s)
  {
    if s == [] then 0 else 10 * Number(s[..|s| - 1]) + DigitValue(s[|s| - 1])
  }

  /** Reading a printed number gives it back. */
  lemma {:induction false} NumberOfDecimal(n: nat)
    ensures Number(Decimal(n)) == n
  {
    if n >= 10 {
      NumberOfDecimal(n / 10);
      assert Decimal(n)[..|Decimal(n)| - 1] == Decimal(n / 10);
    }
  }

  // ---------------------------------------------------------------- cell text and labels

  /** A cell text as the importers read it: trimmed, with ASCII digits. */
  function Clean(s: string): string {
    Translate(Strip(s))
  }

  lemma CleanIsStable(s: string)
    requires forall i :: 0 <= i < |s| ==> !IsSpace(s[i]) && AsciiDigit(s[i]) == s[i]
    ensures Clean(s) == s
  {
    StripIsStable(s);
    assert Translate(s) == s;
  }

  lemma {:induction false} TranslateConcat(a: string, b: string)
    ensures Translate(a + b) == Translate(a) + Translate(b)
  {
    assert forall i :: 0 <= i < |a + b| ==> Translate(a + b)[i] == (Translate(a) + Translate(b))[i];
  }

  lemma TranslateIsStable(s: string)
    ensures Translate(Translate(s)) == Translate(s)
  {
    assert forall i :: 0 <= i < |s| ==> Translate(Translate(s))[i] == Translate(s)[i];
  }

  /** Arabic letter variants become Persian ones. */
  function PersianLetter(c: char): char {
    if c == '\U{064A}' then '\U{06CC}' else if c == '\U{0643}' then '\U{06A9}' else c
  }

  predicate Invisible(c: char) { IsSpace(c) || c == '\U{200C}' }

  /** Drops all spaces and zero-width non-joiners and unifies letters. */
  function Squeeze(s: string): string {
    if s == [] then [] else (if Invisible(s[0]) then [] else [PersianLetter(s[0])]) + Squeeze(s[1..])
  }

  /** The form in which titles are compared. */
  function Label(s: string): string {
    Squeeze(Clean(s))
  }

  lemma {:induction false} SqueezeConcat(a: string, b: string)
    ensures Squeeze(a + b) == Squeeze(a) + Squeeze(b)
  {
    if a == [] {
      assert a + b == b;
    } else {
      assert (a + b)[1..] == a[1..] + b;
      SqueezeConcat(a[1..], b);
    }
  }

  lemma {:induction false} SqueezeIgnoresLeft(s: string)
    ensures Squeeze(Translate(StripLeft(s))) == Squeeze(Translate(s))
  {
    if s != [] && IsSpace(s[0]) {
      SqueezeIgnoresLeft(s[1..]);
      assert Translate(s)[1..] == Translate(s[1..]);
    }
  }

  lemma SqueezeDropsLastSpace(s: string)
    requires s != [] && IsSpace(s[|s| - 1])
    ensures Squeeze(Translate(s)) == Squeeze(Translate(s[..|s| - 1]))
  {
    assert s == s[..|s| - 1] + [s[|s| - 1]];
    SqueezeDropsSpaceAfter(s[..|s| - 1], [s[|s| - 1]]);
  }

  lemma SqueezeDropsSpaceAfter(front: string, space: string)
    requires |space| == 1 && IsSpace(space[0])
    ensures Squeeze(Translate(front + space)) == Squeeze(Translate(front))
  {
    TranslateConcat(front, space);
    SpaceIsDropped(space[0]);
    assert space == [space[0]];
    SqueezeDropsTail(Translate(front), space);
  }

  lemma SqueezeDropsTail(s: string, tail: string)
    requires Squeeze(tail) == []
    ensures Squeeze(s + tail) == Squeeze(s)
  {
    SqueezeConcat(s, tail);
  }

  lemma SpaceIsDropped(c: char)
    requires IsSpace(c)
    ensures Translate([c]) == [c] && Squeeze([c]) == []
  {
  }

  lemma {:induction false} SqueezeIgnoresRight(s: string)
    ensures Squeeze(Translate(StripRight(s))) == Squeeze(Translate(s))
  {
    if s != [] && IsSpace(s[|s| - 1]) {
      var n := |s| - 1;
      SqueezeIgnoresRight(s[..n]);
      SqueezeDropsLastSpace(s);
    }
  }

  lemma LabelOfStrip(s: string)
    ensures Label(s) == Squeeze(Translate(s))
  {
    SqueezeIgnoresRight(StripLeft(s));
    SqueezeIgnoresLeft(s);
  }

  lemma LabelOfStripped(s: string)
    ensures Label(Strip(s)) == Squeeze(Translate(s))
  {
    LabelOfStrip(Strip(s));
    SqueezeIgnoresRight(StripLeft(s));
    SqueezeIgnoresLeft(s);
  }

  /** Reading a title again does not change its label. */
  lemma LabelOfClean(s: string)
    ensures Label(Clean(s)) == Label(s)
  {
    LabelOfStrip(Clean(s));
    TranslateIsStable(Strip(s));
  }

  // ---------------------------------------------------------------- splitting

  lemma {:induction false} StripRightStopsAt(a: string, b: string)
    requires a != [] && !IsSpace(a[|a| - 1])
    ensures StripRight(a + b) == a + StripRight(b)
  {
    if b == [] {
      assert a + b == a;
    } else {
      assert (a + b)[..|a + b| - 1] == a + b[..|b| - 1];
      if IsSpace(b[|b| - 1]) {
        StripRightStopsAt(a, b[..|b| - 1]);
      }
    }
  }

  /** The first position of a character, or the length. */
  function FirstIndex(s: string, c: char): (i: nat)
    ensures i <= |s| && forall k :: 0 <= k < i ==> s[k] != c
    ensures i < |s| ==> s[i] == c
  {
    if s == [] || s[0] == c then 0 else 1 + FirstIndex(s[1..], c)
  }

  lemma FirstIndexIs(s: string, c: char, k: nat)
    requires k < |s| && s[k] == c && forall i :: 0 <= i < k ==> s[i] != c
    ensures FirstIndex(s, c) == k
  {
  }

  /** `str.upper` for ASCII letters. */
  function UpperChar(c: char): char {
    if 'a' <= c <= 'z' then (c as int - 32) as char else c
  }

  function Upper(s: string): (r: string)
    ensures |r| == |s|
    ensures forall i :: 0 <= i < |s| ==> r[i] == UpperChar(s[i])
  {
    if s == [] then [] else [UpperChar(s[0])] + Upper(s[1..])
  }
}
