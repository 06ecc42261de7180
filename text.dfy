/**
 * The few Python `str` methods the routes rely on, over ASCII: `strip()`,
 * `lower()`, `isdigit()` and the blank test `not s.strip()`.
 */
module Text {

  /** Python's `str.isspace` on ASCII: TAB, LF, VT, FF, CR, the separators 0x1C-0x1F, and SPACE. */
  predicate IsSpace(c: char) {
    (9 <= c as int <= 13) || (28 <= c as int <= 32)
  }

  /** True when `strip()` leaves nothing, i.e. `not s.strip()` in Python. */
  predicate IsBlank(s: string) {
    forall i :: 0 <= i < |s| ==> IsSpace(s[i])
  }

  /** `s.lstrip()`: drops the leading whitespace and nothing else. */
  function TrimStart(s: string): (r: string)
    ensures |r| <= |s|
    ensures r == [] || !IsSpace(r[0])
    ensures forall i :: 0 <= i < |s| - |r| ==> IsSpace(s[i])
  {
    if |s| > 0 && IsSpace(s[0]) then TrimStart(s[1..]) else s
  }

  /** `s.rstrip()`: drops the trailing whitespace and nothing else. */
  function TrimEnd(s: string): (r: string)
    ensures |r| <= |s|
    ensures r == [] || !IsSpace(r[|r| - 1])
    ensures forall i :: |r| <= i < |s| ==> IsSpace(s[i])
  {
    if |s| > 0 && IsSpace(s[|s| - 1]) then TrimEnd(s[..|s| - 1]) else s
  }

  /** `s.strip()`: a contiguous slice of `s` that neither starts nor ends with whitespace. */
  function Strip(s: string): (r: string)
    ensures |r| <= |s|
    ensures r == [] || (!IsSpace(r[0]) && !IsSpace(r[|r| - 1]))
    ensures r == [] <==> IsBlank(s)
  {
    TrimStartIsSuffix(s);
    TrimEndIsPrefix(TrimStart(s));
    TrimEnd(TrimStart(s))
  }

  /** What `lstrip()` leaves is a suffix of its argument. */
  lemma {:induction false} TrimStartIsSuffix(s: string)
    ensures TrimStart(s) == s[|s| - |TrimStart(s)|..]
  {
    if |s| > 0 && IsSpace(s[0]) {
      TrimStartIsSuffix(s[1..]);
      assert s[1..][|s| - 1 - |TrimStart(s)|..] == s[|s| - |TrimStart(s)|..];
    }
  }

  /** What `rstrip()` leaves is a prefix of its argument. */
  lemma {:induction false} TrimEndIsPrefix(s: string)
    ensures TrimEnd(s) == s[..|TrimEnd(s)|]
  {
    if |s| > 0 && IsSpace(s[|s| - 1]) {
      TrimEndIsPrefix(s[..|s| - 1]);
      assert s[..|s| - 1][..|TrimEnd(s)|] == s[..|TrimEnd(s)|];
    }
  }

  /** `strip()` is the part of `s` after its leading and before its trailing whitespace. */
  lemma StripIsMiddle(s: string)
    ensures exists i, j :: 0 <= i <= j <= |s| && Strip(s) == s[i..j] && IsBlank(s[..i]) && IsBlank(s[j..])
  {
    var t := TrimStart(s);
    TrimStartIsSuffix(s);
    TrimEndIsPrefix(t);
    var u := TrimEnd(t);
    var i := |s| - |t|;
    var j := i + |u|;
    assert s[i..] == t;
    assert s[i..j] == t[..|u|];
    assert s[j..] == t[|u|..];
    assert IsBlank(t[|u|..]) by {
      forall k | 0 <= k < |t| - |u| ensures IsSpace(t[|u|..][k]) {
        assert t[|u|..][k] == t[|u| + k];
      }
    }
  }

  /** ASCII `str.lower()` on one character. */
  function LowerChar(c: char): (d: char)
    ensures !('A' <= d <= 'Z')
    ensures !('A' <= c <= 'Z') ==> d == c
    ensures 'A' <= c <= 'Z' ==> 'a' <= d <= 'z' && d as int == c as int + 32
  {
    if 'A' <= c <= 'Z' then (c as int + 32) as char else c
  }

  /** ASCII `str.lower()`: same length, no upper-case letter left, every other character kept. */
  function Lower(s: string): (r: string)
    ensures |r| == |s|
    ensures forall i :: 0 <= i < |r| ==> !('A' <= r[i] <= 'Z')
    ensures forall i :: 0 <= i < |s| && !('A' <= s[i] <= 'Z') ==> r[i] == s[i]
    ensures forall i :: 0 <= i < |s| && 'A' <= s[i] <= 'Z' ==> r[i] as int == s[i] as int + 32
  {
    seq(|s|, i requires 0 <= i < |s| => LowerChar(s[i]))
  }

  /** ASCII `str.isdigit()`: non-empty and made only of '0'..'9'. */
  predicate IsDigits(s: string) {
    |s| > 0 && forall i :: 0 <= i < |s| ==> '0' <= s[i] <= '9'
  }

  /** A character that is not whitespace survives `strip()`, and `strip()` adds none. */
  lemma {:induction false} StripKeeps(s: string, c: char)
    requires !IsSpace(c)
    ensures c in Strip(s) <==> c in s
  {
    var t := TrimStart(s);
    TrimStartIsSuffix(s);
    var u := TrimEnd(t);
    TrimEndIsPrefix(t);
    if c in s {
      var k :| 0 <= k < |s| && s[k] == c;
      assert |s| - |t| <= k;
      assert t[k - (|s| - |t|)] == c;
      assert k - (|s| - |t|) < |u|;
      assert u[k - (|s| - |t|)] == c;
    }
    if c in u {
      var k :| 0 <= k < |u| && u[k] == c;
      assert s[k + (|s| - |t|)] == c;
    }
  }

  /** A string with no whitespace at all is left alone by `strip()`. */
  lemma {:induction false} StripNoSpace(s: string)
    requires forall i :: 0 <= i < |s| ==> !IsSpace(s[i])
    ensures Strip(s) == s
  {
    assert |s| > 0 ==> !IsSpace(s[0]);
    assert TrimStart(s) == s;
    assert |s| > 0 ==> !IsSpace(s[|s| - 1]);
  }

  /** `lower()` keeps every character that is not an upper-case letter, so `'@' in s` survives it. */
  lemma LowerKeeps(s: string, c: char)
    requires !('A' <= c <= 'Z')
    requires c in s
    ensures c in Lower(s)
  {
    var k :| 0 <= k < |s| && s[k] == c;
    assert Lower(s)[k] == c;
  }

  /** Digits are not whitespace, so an `isdigit()` string is its own `strip()`. */
  lemma DigitsStripped(s: string)
    requires IsDigits(s)
    ensures Strip(s) == s
  {
    StripNoSpace(s);
  }
}
