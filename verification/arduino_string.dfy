/**
 The parts of the Arduino `String` class that the firmware relies on, stated
 over `seq<char>`: case-insensitive comparison, `trim`, the hexadecimal
 conversion `String(b, HEX)` and the replacement of spaces by `%20`.
 */
module ArduinoString {

  /** An unsigned 8-bit value, as read from the card reader. */
  type Byte = b: int | 0 <= b < 256

  /** The two parts of a concatenation are recovered by slicing, and a character is in it iff it is in a part. */
  lemma SplitConcat(p: string, m: string, c: char)
    ensures (p + m)[..|p|] == p && (p + m)[|p|..] == m
    ensures c in p + m <==> c in p || c in m
  {
  }

  /** C `tolower` in the default locale: only 'A'..'Z' change. */
  function ToLower(c: char): (d: char)
    ensures 'A' <= c <= 'Z' ==> 'a' <= d <= 'z' && d as int - c as int == 32
    ensures !('A' <= c <= 'Z') ==> d == c
  {
    if 'A' <= c <= 'Z' then (c as int + 32) as char else c
  }

  /** The string with every character folded by `ToLower`. */
  function Fold(s: string): (t: string)
    ensures |t| == |s|
    ensures forall i :: 0 <= i < |s| ==> t[i] == ToLower(s[i])
  {
    if |s| == 0 then [] else [ToLower(s[0])] + Fold(s[1..])
  }

  /** The character loop of `equalsIgnoreCase`, from position `i` on. */
  function SameFoldedFrom(a: string, b: string, i: nat): (r: bool)
    requires |a| == |b| && i <= |a|
    ensures r <==> forall j :: i <= j < |a| ==> ToLower(a[j]) == ToLower(b[j])
    decreases |a| - i
  {
    if i == |a| then true
    else if ToLower(a[i]) != ToLower(b[i]) then false
    else SameFoldedFrom(a, b, i + 1)
  }

  /**
   `String::equalsIgnoreCase`: lengths first, then each character pair
   compared after `tolower`.
   */
  function EqualsIgnoreCase(a: string, b: string): (r: bool)
    ensures r <==> |a| == |b| && forall i :: 0 <= i < |a| ==> ToLower(a[i]) == ToLower(b[i])
  {
    |a| == |b| && SameFoldedFrom(a, b, 0)
  }

  /** Case-insensitive equality is equality of the folded strings. */
  lemma EqualsIgnoreCaseIsFoldEquality(a: string, b: string)
    ensures EqualsIgnoreCase(a, b) <==> Fold(a) == Fold(b)
  {
    if Fold(a) == Fold(b) {
      assert |a| == |Fold(a)| == |Fold(b)| == |b|;
      forall i | 0 <= i < |a|
        ensures ToLower(a[i]) == ToLower(b[i])
      {
        assert Fold(a)[i] == Fold(b)[i];
      }
    }
    if EqualsIgnoreCase(a, b) {
      assert Fold(a) == Fold(b);
    }
  }

  /** `EqualsIgnoreCase` is an equivalence relation. */
  lemma EqualsIgnoreCaseIsEquivalence(a: string, b: string, c: string)
    ensures EqualsIgnoreCase(a, a)
    ensures EqualsIgnoreCase(a, b) ==> EqualsIgnoreCase(b, a)
    ensures EqualsIgnoreCase(a, b) && EqualsIgnoreCase(b, c) ==> EqualsIgnoreCase(a, c)
  {
    EqualsIgnoreCaseIsFoldEquality(a, a);
    EqualsIgnoreCaseIsFoldEquality(a, b);
    EqualsIgnoreCaseIsFoldEquality(b, a);
    EqualsIgnoreCaseIsFoldEquality(b, c);
    EqualsIgnoreCaseIsFoldEquality(a, c);
  }

  /** Whitespace as C `isspace` sees it. */
  predicate IsSpace(c: char) {
    c == ' ' || c == '\t' || c == '\n' || c == '\r' || c == '\U{C}' || c == '\U{B}'
  }

  /** The string with its leading whitespace removed. */
  function TrimStart(s: string): (t: string)
    ensures |t| <= |s| && t == s[|s| - |t|..]
    ensures forall i :: 0 <= i < |s| - |t| ==> IsSpace(s[i])
    ensures |t| > 0 ==> !IsSpace(t[0])
  {
    if |s| > 0 && IsSpace(s[0]) then TrimStart(s[1..]) else s
  }

  /** The string with its trailing whitespace removed. */
  function TrimEnd(s: string): (t: string)
    ensures |t| <= |s| && t == s[..|t|]
    ensures forall i :: |t| <= i < |s| ==> IsSpace(s[i])
    ensures |t| > 0 ==> !IsSpace(t[|t| - 1])
  {
    if |s| > 0 && IsSpace(s[|s| - 1]) then TrimEnd(s[..|s| - 1]) else s
  }

  /** `String::trim`: whitespace removed at both ends. */
  function Trim(s: string): string {
    TrimEnd(TrimStart(s))
  }

  /** `t` is `s[i..j]`, and everything outside that slice is whitespace. */
  ghost predicate TrimmedAt(s: string, t: string, i: int, j: int) {
    && 0 <= i <= j <= |s| && t == s[i..j]
    && (forall k :: 0 <= k < i ==> IsSpace(s[k]))
    && (forall k :: j <= k < |s| ==> IsSpace(s[k]))
  }

  /** `trim` keeps a contiguous slice of the string and removes only whitespace. */
  lemma TrimKeepsCore(s: string)
    ensures exists i, j :: TrimmedAt(s, Trim(s), i, j)
  {
    var a := TrimStart(s);
    var i := |s| - |a|;
    var j := i + |TrimEnd(a)|;
    forall k | j <= k < |s|
      ensures IsSpace(s[k])
    {
      assert s[k] == a[k - i];
    }
    assert TrimmedAt(s, Trim(s), i, j);
  }

  /** What `trim` keeps starts and ends with a non-space. */
  lemma TrimEndsNonSpace(s: string)
    ensures |Trim(s)| > 0 ==> !IsSpace(Trim(s)[0]) && !IsSpace(Trim(s)[|Trim(s)| - 1])
  {
    var a := TrimStart(s);
    if |Trim(s)| > 0 {
      assert Trim(s)[0] == a[0];
    }
  }

  /** A string without whitespace is left alone by `trim`. */
  lemma TrimWithoutSpaces(s: string)
    requires forall i :: 0 <= i < |s| ==> !IsSpace(s[i])
    ensures Trim(s) == s
  {
  }

  predicate IsLowerHexDigit(c: char) {
    '0' <= c <= '9' || 'a' <= c <= 'f'
  }

  /** The character `utoa` writes for a base-16 digit: '0'..'9', then 'a'..'f'. */
  function HexDigit(d: int): (c: char)
    requires 0 <= d < 16
    ensures IsLowerHexDigit(c)
  {
    if d < 10 then ('0' as int + d) as char else ('a' as int + d - 10) as char
  }

  /** The digit value of a lower-case hexadecimal character. */
  function DigitValue(c: char): (v: nat)
    requires IsLowerHexDigit(c)
    ensures v < 16 && HexDigit(v) == c
  {
    if c <= '9' then c as int - '0' as int else c as int - 'a' as int + 10
  }

  /** The value of a string of lower-case hexadecimal digits. */
  function HexValue(s: string): nat
    requires forall i :: 0 <= i < |s| ==> IsLowerHexDigit(s[i])
  {
    if |s| == 0 then 0 else 16 * HexValue(s[..|s| - 1]) + DigitValue(s[|s| - 1])
  }

  /**
   `String(b, HEX)`: the byte in base 16, lower-case digits, no zero padding,
   so one digit below 16 and two from 16 on.
   */
  function ByteToHex(b: Byte): (s: string)
    ensures 1 <= |s| <= 2
    ensures |s| == 1 <==> b < 16
    ensures forall i :: 0 <= i < |s| ==> IsLowerHexDigit(s[i])
    ensures s[0] == '0' ==> b == 0
  {
    if b < 16 then [HexDigit(b)] else [HexDigit(b / 16), HexDigit(b % 16)]
  }

  /** Reading the digits back gives the byte: the conversion loses nothing. */
  lemma ByteToHexRoundTrip(b: Byte)
    ensures HexValue(ByteToHex(b)) == b
  {
    var s := ByteToHex(b);
    if b < 16 {
      assert s[..0] == [];
      assert DigitValue(s[0]) == b;
    } else {
      var hi, lo := b / 16, b % 16;
      assert b == 16 * hi + lo;
      assert s[..1] == [HexDigit(hi)];
      assert s[..1][..0] == [];
      assert DigitValue(s[0]) == hi;
      assert DigitValue(s[1]) == lo;
      assert HexValue(s[..1]) == hi;
    }
  }

  /** `message.replace(" ", "%20")`: every space becomes `%20`. */
  function EncodeSpaces(s: string): (t: string)
    ensures ' ' !in t
    ensures |t| >= |s|
  {
    if |s| == 0 then []
    else (if s[0] == ' ' then "%20" else [s[0]]) + EncodeSpaces(s[1..])
  }

  /** The inverse substitution: every `%20` becomes a space. */
  function DecodeSpaces(t: string): string {
    if |t| == 0 then []
    else if |t| >= 3 && t[..3] == "%20" then " " + DecodeSpaces(t[3..])
    else [t[0]] + DecodeSpaces(t[1..])
  }

  /** On a message without `%`, decoding undoes the encoding: nothing but spaces changed. */
  lemma {:induction false} EncodeSpacesRoundTrip(s: string)
    requires '%' !in s
    ensures DecodeSpaces(EncodeSpaces(s)) == s
  {
    if |s| > 0 {
      var t := EncodeSpaces(s);
      EncodeSpacesRoundTrip(s[1..]);
      if s[0] == ' ' {
        assert t == "%20" + EncodeSpaces(s[1..]);
        assert t[..3] == "%20" && t[3..] == EncodeSpaces(s[1..]);
      } else {
        assert t == [s[0]] + EncodeSpaces(s[1..]);
        assert t[1..] == EncodeSpaces(s[1..]);
        assert t[0] != '%';
      }
    }
  }

  /** A message without spaces is not changed by the encoding. */
  lemma {:induction false} EncodeSpacesWithoutSpaces(s: string)
    requires ' ' !in s
    ensures EncodeSpaces(s) == s
  {
    if |s| > 0 {
      assert ' ' !in s[1..];
      EncodeSpacesWithoutSpaces(s[1..]);
    }
  }

  /** The encoding works piecewise: it distributes over concatenation. */
  lemma {:induction false} EncodeSpacesAppend(a: string, b: string)
    ensures EncodeSpaces(a + b) == EncodeSpaces(a) + EncodeSpaces(b)
  {
    if |a| > 0 {
      assert (a + b)[1..] == a[1..] + b;
      EncodeSpacesAppend(a[1..], b);
    } else {
      assert a + b == b;
    }
  }

  /** A space-free middle part passes through the encoding unchanged. */
  lemma EncodeSpacesAround(a: string, m: string, b: string)
    requires ' ' !in m
    ensures EncodeSpaces(a + m + b) == EncodeSpaces(a) + m + EncodeSpaces(b)
  {
    EncodeSpacesAppend(a + m, b);
    EncodeSpacesAppend(a, m);
    EncodeSpacesWithoutSpaces(m);
  }
}
