/** Go strings. A `string` here is a byte string, one `char` below 256 for each byte, so `|s|` is `len(s)`. */
module Text {

  predicate InRange(c: char, lo: int, hi: int) {
    lo <= c as int <= hi
  }

  predicate Continuations(s: string, n: nat) {
    n < |s| && forall i :: 1 <= i <= n ==> InRange(s[i], 0x80, 0xBF)
  }

  /** Bytes taken by the first rune of `s`, or 0 when `s` does not start with a well-formed rune. */
  function RuneLength(s: string): (n: nat)
    requires s != []
    ensures n <= |s|
  {
    if InRange(s[0], 0, 0x7F) then 1
    else if InRange(s[0], 0xC2, 0xDF) && Continuations(s, 1) then 2
    else if InRange(s[0], 0xE0, 0xEF) && Continuations(s, 2)
            && (s[0] as int == 0xE0 ==> s[1] as int >= 0xA0)
            && (s[0] as int == 0xED ==> s[1] as int <= 0x9F) then 3
    else if InRange(s[0], 0xF0, 0xF4) && Continuations(s, 3)
            && (s[0] as int == 0xF0 ==> s[1] as int >= 0x90)
            && (s[0] as int == 0xF4 ==> s[1] as int <= 0x8F) then 4
    else 0
  }

  /** `utf8.ValidString`. */
  predicate ValidUTF8(s: string) {
    s == [] || (RuneLength(s) > 0 && ValidUTF8(s[RuneLength(s)..]))
  }

  /* ---- UTF-8 from the writing side ---- */

  /** A Unicode scalar value: a code point that is not a surrogate. */
  predicate Scalar(rune: nat) {
    rune < 0xD800 || 0xE000 <= rune < 0x11_0000
  }

  function Tail(x: nat): char {
    (0x80 + x % 64) as char
  }

  /** The bytes of one scalar value. */
  function EncodedRune(rune: nat): string
    requires Scalar(rune)
  {
    if rune < 0x80 then [rune as char]
    else if rune < 0x800 then [(0xC0 + rune / 64) as char, Tail(rune)]
    else if rune < 0x1_0000 then [(0xE0 + rune / 64 / 64) as char, Tail(rune / 64), Tail(rune)]
    else [(0xF0 + rune / 64 / 64 / 64) as char, Tail(rune / 64 / 64), Tail(rune / 64), Tail(rune)]
  }

  function Encoded(runes: seq<nat>): string
    requires forall i :: 0 <= i < |runes| ==> Scalar(runes[i])
  {
    if runes == [] then "" else EncodedRune(runes[0]) + Encoded(runes[1..])
  }

  ghost predicate Encodes(runes: seq<nat>, s: string) {
    (forall i :: 0 <= i < |runes| ==> Scalar(runes[i])) && Encoded(runes) == s
  }

  function Low(c: char): nat {
    c as int % 64
  }

  /** The scalar value at the head of `s`. */
  function FirstRune(s: string): (rune: nat)
    requires s != [] && RuneLength(s) > 0
  {
    match RuneLength(s)
    case 1 => s[0] as int
    case 2 => (s[0] as int - 0xC0) * 64 + Low(s[1])
    case 3 => ((s[0] as int - 0xE0) * 64 + Low(s[1])) * 64 + Low(s[2])
    case _ => (((s[0] as int - 0xF0) * 64 + Low(s[1])) * 64 + Low(s[2])) * 64 + Low(s[3])
  }

  lemma FirstRuneIsEncoded(s: string)
    requires s != [] && RuneLength(s) > 0
    ensures Scalar(FirstRune(s)) && EncodedRune(FirstRune(s)) == s[..RuneLength(s)]
  {
    match RuneLength(s)
    case 2 => SplitOff(s[0] as int - 0xC0, s[1]);
    case 3 => ThreeBytesAreEncoded(s);
    case 4 => FourBytesAreEncoded(s);
    case _ =>
  }

  lemma ThreeBytesAreEncoded(s: string)
    requires s != [] && RuneLength(s) == 3
    ensures Scalar(FirstRune(s)) && EncodedRune(FirstRune(s)) == s[..3]
  {
    SplitOff(s[0] as int - 0xE0, s[1]);
    SplitOff((s[0] as int - 0xE0) * 64 + Low(s[1]), s[2]);
  }

  lemma FourBytesAreEncoded(s: string)
    requires s != [] && RuneLength(s) == 4
    ensures Scalar(FirstRune(s)) && EncodedRune(FirstRune(s)) == s[..4]
  {
    SplitOff(s[0] as int - 0xF0, s[1]);
    SplitOff((s[0] as int - 0xF0) * 64 + Low(s[1]), s[2]);
    SplitOff(((s[0] as int - 0xF0) * 64 + Low(s[1])) * 64 + Low(s[2]), s[3]);
  }

  lemma SplitOff(high: nat, c: char)
    requires InRange(c, 0x80, 0xBF)
    ensures var x := high * 64 + Low(c);
            x / 64 == high && x % 64 == Low(c) && Tail(x) == c
  {
  }

  lemma EncodedRuneIsRead(rune: nat, rest: string)
    requires Scalar(rune)
    ensures RuneLength(EncodedRune(rune) + rest) == |EncodedRune(rune)|
  {
  }

  /** The strings that pass are exactly the encodings of sequences of scalar values: no surrogates, nothing beyond the
      last code point, no overlong forms. */
  lemma {:induction false} ValidUTF8IsExact(s: string)
    ensures ValidUTF8(s) <==> exists runes :: Encodes(runes, s)
  {
    if ValidUTF8(s) {
      var runes := Decoded(s);
      assert Encodes(runes, s);
    }
    if runes :| Encodes(runes, s) {
      EncodingsAreValid(runes);
    }
  }

  lemma {:induction false} Decoded(s: string) returns (runes: seq<nat>)
    requires ValidUTF8(s)
    ensures Encodes(runes, s)
  {
    runes := [];
    if s != [] {
      FirstRuneIsEncoded(s);
      var rest := Decoded(s[RuneLength(s)..]);
      runes := [FirstRune(s)] + rest;
      assert runes[1..] == rest;
    }
  }

  lemma {:induction false} EncodingsAreValid(runes: seq<nat>)
    requires forall i :: 0 <= i < |runes| ==> Scalar(runes[i])
    ensures ValidUTF8(Encoded(runes))
  {
    if runes != [] {
      var head, rest := EncodedRune(runes[0]), Encoded(runes[1..]);
      EncodingsAreValid(runes[1..]);
      EncodedRuneIsRead(runes[0], rest);
      assert (head + rest)[|head|..] == rest;
    }
  }

  /** `cmp.Compare(a, b) < 0`: the byte-wise lexicographic order. */
  predicate Less(a: string, b: string) {
    b != [] && (a == [] || a[0] < b[0] || (a[0] == b[0] && Less(a[1..], b[1..])))
  }

  /** `a` ends, or has the smaller byte, at the first position where the two differ. */
  ghost predicate SmallerAt(a: string, b: string, n: nat) {
    && n <= |a| && n < |b| && (forall i :: 0 <= i < n ==> a[i] == b[i])
    && (n < |a| ==> a[n] < b[n])
  }

  lemma {:induction false} LessIsByFirstDifference(a: string, b: string)
    ensures Less(a, b) <==> exists n: nat :: SmallerAt(a, b, n)
  {
    if a == [] || b == [] || a[0] != b[0] {
      assert Less(a, b) ==> SmallerAt(a, b, 0);
    } else {
      LessIsByFirstDifference(a[1..], b[1..]);
      if Less(a, b) {
        var n: nat :| SmallerAt(a[1..], b[1..], n);
        assert forall i :: 1 <= i < n + 1 ==> a[i] == a[1..][i - 1] && b[i] == b[1..][i - 1];
        assert SmallerAt(a, b, n + 1);
      }
      if n: nat :| SmallerAt(a, b, n) {
        assert SmallerAt(a[1..], b[1..], n - 1);
      }
    }
  }

  lemma {:induction false} LessIsTransitive(a: string, b: string, c: string)
    requires Less(a, b) && Less(b, c)
    ensures Less(a, c)
  {
    if a != [] && a[0] == b[0] && b[0] == c[0] {
      LessIsTransitive(a[1..], b[1..], c[1..]);
    }
  }

  lemma {:induction false} LessIsStrict(a: string)
    ensures !Less(a, a)
  {
    if a != [] {
      LessIsStrict(a[1..]);
    }
  }

  lemma {:induction false} LessIsTotal(a: string, b: string)
    ensures a == b || Less(a, b) || Less(b, a)
  {
    if a != [] && b != [] && a[0] == b[0] {
      LessIsTotal(a[1..], b[1..]);
      if a[1..] == b[1..] {
        assert a == [a[0]] + a[1..] == [b[0]] + b[1..] == b;
      }
    }
  }
}
