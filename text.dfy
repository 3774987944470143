/**
 * String helpers behind the case-insensitive lookups (`icontains`, `iexact`),
 * the whitespace trimming of text fields, and the decimal form of a numeric id.
 * Case folding covers the ASCII letters only.
 */
module Text {

  /** Lower-case form of one character (ASCII letters only). */
  function Lower(c: char): (d: char)
    ensures 'A' <= c <= 'Z' ==> d as int == c as int + 32
    ensures !('A' <= c <= 'Z') ==> d == c
  {
    if 'A' <= c <= 'Z' then (c as int + 32) as char else c
  }

  /** Lower-case form of a string, character by character. */
  function LowerStr(s: string): (r: string)
    ensures |r| == |s|
    ensures forall i :: 0 <= i < |s| ==> r[i] == Lower(s[i])
  {
    if s == [] then [] else [Lower(s[0])] + LowerStr(s[1..])
  }

  /** Case-insensitive equality, the meaning of `iexact`. */
  predicate EqualsIgnoringCase(a: string, b: string)
  {
    LowerStr(a) == LowerStr(b)
  }

  lemma {:induction false} LowerStrIdempotent(s: string)
    ensures LowerStr(LowerStr(s)) == LowerStr(s)
  {
    if s != [] {
      LowerStrIdempotent(s[1..]);
      assert LowerStr(s)[1..] == LowerStr(s[1..]);
    }
  }

  /** `sub` occurs at position `i` of `s`. */
  ghost predicate OccursAt(sub: string, s: string, i: int)
  {
    0 <= i && i + |sub| <= |s| && s[i..i + |sub|] == sub
  }

  /** Substring test, scanning `s` from the left. */
  predicate Contains(s: string, sub: string)
    decreases |s|
  {
    (|sub| <= |s| && s[..|sub|] == sub) || (s != [] && Contains(s[1..], sub))
  }

  /** `Contains` holds exactly when `sub` occurs at some position of `s`. */
  lemma {:induction false} ContainsIffOccurs(s: string, sub: string)
    ensures Contains(s, sub) <==> exists i :: OccursAt(sub, s, i)
    decreases |s|
  {
    if |sub| <= |s| && s[..|sub|] == sub {
      assert OccursAt(sub, s, 0);
    } else if s != [] {
      ContainsIffOccurs(s[1..], sub);
      if Contains(s[1..], sub) {
        var i :| OccursAt(sub, s[1..], i);
        assert s[1..][i..i + |sub|] == s[i + 1..i + 1 + |sub|];
        assert OccursAt(sub, s, i + 1);
      }
      if exists i :: OccursAt(sub, s, i) {
        var i :| OccursAt(sub, s, i);
        assert i != 0 by {
          assert s[..|sub|] == s[0..|sub|];
        }
        assert s[1..][i - 1..i - 1 + |sub|] == s[i..i + |sub|];
        assert OccursAt(sub, s[1..], i - 1);
      }
    }
  }

  /** Case-insensitive substring test, the meaning of `icontains`. */
  predicate ContainsIgnoringCase(s: string, sub: string)
  {
    Contains(LowerStr(s), LowerStr(sub))
  }

  /**
   * Whitespace as Python's `str.strip()` removes it: the characters `str.isspace()`
   * accepts (the ASCII controls tab to carriage return and file to unit separator,
   * space, and the Unicode line, paragraph and space separators).
   */
  predicate IsSpace(c: char)
  {
    || '\t' <= c <= '\r'
    || '\U{001C}' <= c <= ' '
    || c == '\U{0085}' || c == '\U{00A0}' || c == '\U{1680}'
    || '\U{2000}' <= c <= '\U{200A}'
    || c == '\U{2028}' || c == '\U{2029}' || c == '\U{202F}' || c == '\U{205F}' || c == '\U{3000}'
  }

  /** Whether every character of `s` is whitespace. */
  predicate AllSpace(s: string)
  {
    forall i :: 0 <= i < |s| ==> IsSpace(s[i])
  }

  /** `s` without its leading whitespace. */
  function TrimLeft(s: string): (r: string)
    ensures |r| <= |s|
    ensures r == [] || !IsSpace(r[0])
  {
    if s != [] && IsSpace(s[0]) then TrimLeft(s[1..]) else s
  }

  /** `s` without its trailing whitespace. */
  function TrimRight(s: string): (r: string)
    ensures |r| <= |s|
    ensures r == [] || !IsSpace(r[|r| - 1])
  {
    if s != [] && IsSpace(s[|s| - 1]) then TrimRight(s[..|s| - 1]) else s
  }

  /** `TrimLeft` removes a whitespace prefix and keeps the rest. */
  lemma {:induction false} TrimLeftSplits(s: string)
    ensures |TrimLeft(s)| <= |s|
    ensures TrimLeft(s) == s[|s| - |TrimLeft(s)|..]
    ensures AllSpace(s[..|s| - |TrimLeft(s)|])
  {
    if s != [] && IsSpace(s[0]) {
      TrimLeftSplits(s[1..]);
      var n := |s| - |TrimLeft(s)|;
      assert s[1..][..n - 1] == s[1..n];
      assert forall i :: 1 <= i < n ==> s[i] == s[1..n][i - 1];
    }
  }

  /** `TrimRight` removes a whitespace suffix and keeps the rest. */
  lemma {:induction false} TrimRightSplits(s: string)
    ensures |TrimRight(s)| <= |s|
    ensures TrimRight(s) == s[..|TrimRight(s)|]
    ensures AllSpace(s[|TrimRight(s)|..])
  {
    if s != [] && IsSpace(s[|s| - 1]) {
      var t := s[..|s| - 1];
      TrimRightSplits(t);
      var n := |TrimRight(s)|;
      assert t[..n] == s[..n];
      assert forall i :: n <= i < |s| - 1 ==> s[i] == t[n..][i - n];
    }
  }

  /**
   * `s` with leading and trailing whitespace removed, as a text field reads its input:
   * the result neither starts nor ends with whitespace.
   */
  function Trim(s: string): (r: string)
    ensures |r| <= |s|
    ensures r == [] || (!IsSpace(r[0]) && !IsSpace(r[|r| - 1]))
  {
    var left := TrimLeft(s);
    var r := TrimRight(left);
    assert r != [] ==> r[0] == left[0] by {
      if r != [] {
        TrimRightSplits(left);
        assert r[0] == left[..|r|][0];
      }
    }
    r
  }

  /** The trimmed text is a contiguous slice of `s`, and what is cut off on either side is whitespace. */
  lemma TrimIsSlice(s: string)
    ensures exists i :: OccursAt(Trim(s), s, i) && AllSpace(s[..i]) && AllSpace(s[i + |Trim(s)|..])
  {
    var left := TrimLeft(s);
    TrimLeftSplits(s);
    TrimRightSplits(left);
    var i := |s| - |left|;
    var r := Trim(s);
    assert r == s[i..][..|r|] == s[i..i + |r|];
    assert OccursAt(r, s, i);
    assert left[|r|..] == s[i + |r|..];
  }

  /** A string with no surrounding whitespace is its own trimmed form. */
  lemma TrimTrimmed(s: string)
    requires s == [] || (!IsSpace(s[0]) && !IsSpace(s[|s| - 1]))
    ensures Trim(s) == s
  {
  }

  /** Decimal digit character for 0..9. */
  function Digit(d: nat): (c: char)
    requires d < 10
    ensures '0' <= c <= '9'
  {
    "0123456789"[d]
  }

  /** Decimal representation of a natural number, without leading zeros. */
  function NatToDecimal(n: nat): (r: string)
    ensures r != []
    ensures forall i :: 0 <= i < |r| ==> '0' <= r[i] <= '9'
    ensures n < 10 ==> r == [Digit(n)]
  {
    if n < 10 then [Digit(n)] else NatToDecimal(n / 10) + [Digit(n % 10)]
  }
}
