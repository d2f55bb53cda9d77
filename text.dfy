/**
 * The few Python `str` operations the tool relies on, over `string` (`seq<char>`):
 * `str.isspace`, `strip`, `lower`, `replace` of one character, `in`, `rfind` and `endswith`.
 */
module Text {

  /** `c.isspace()` in Python 3: the Unicode whitespace characters. */
  predicate IsSpace(c: char) {
    || c == ' '
    || ('\t' <= c <= '\r')           // \t \n \x0b \x0c \r
    || ('\U{1c}' <= c <= '\U{1f}')   // information separators
    || c == '\U{85}' || c == '\U{a0}' || c == '\U{1680}'
    || ('\U{2000}' <= c <= '\U{200a}')
    || c == '\U{2028}' || c == '\U{2029}' || c == '\U{202f}' || c == '\U{205f}' || c == '\U{3000}'
  }

  /** A visible ASCII character is not whitespace. */
  lemma GraphicNotSpace(c: char)
    requires '!' <= c <= '~'
    ensures !IsSpace(c)
  {
  }

  /** True when no character of `s` is whitespace. */
  predicate NoSpace(s: string) {
    forall i :: 0 <= i < |s| ==> !IsSpace(s[i])
  }

  /** `s.lstrip()`: drops the longest all-whitespace prefix. */
  function LStrip(s: string): (r: string)
    ensures |r| <= |s| && r == s[|s| - |r|..]
    ensures forall i :: 0 <= i < |s| - |r| ==> IsSpace(s[i])
    ensures r == [] || !IsSpace(r[0])
  {
    if s != [] && IsSpace(s[0]) then LStrip(s[1..]) else s
  }

  /** `s.rstrip()`: drops the longest all-whitespace suffix. */
  function RStrip(s: string): (r: string)
    ensures |r| <= |s| && r == s[..|r|]
    ensures forall i :: |r| <= i < |s| ==> IsSpace(s[i])
    ensures r == [] || !IsSpace(r[|r| - 1])
  {
    if s != [] && IsSpace(s[|s| - 1]) then RStrip(s[..|s| - 1]) else s
  }

  /** `s.strip()`. */
  function Strip(s: string): (r: string)
    ensures |r| <= |s|
    ensures forall x :: x in r ==> x in s
    ensures r == [] || (!IsSpace(r[0]) && !IsSpace(r[|r| - 1]))
    ensures NoSpace(s) ==> r == s
    ensures (s == [] || (!IsSpace(s[0]) && !IsSpace(s[|s| - 1]))) ==> r == s
  {
    var l := LStrip(s);
    var r := RStrip(l);
    assert forall x :: x in r ==> x in l;
    assert forall x :: x in l ==> x in s;
    r
  }

  /** A leading whitespace character in front of text with non-space edges is stripped away. */
  lemma StripLeading(c: char, s: string)
    requires IsSpace(c) && s != [] && !IsSpace(s[0]) && !IsSpace(s[|s| - 1])
    ensures Strip([c] + s) == s
  {
    assert ([c] + s)[1..] == s;
    assert LStrip([c] + s) == LStrip(s);
  }

  /** `c.lower()` for the scripts a Serbian ledger uses: ASCII, Latin-1, Latin Extended-A, Cyrillic. */
  function LowerChar(c: char): char {
    var n := c as int;
    if 'A' <= c <= 'Z' then (n + 32) as char
    else if (0xC0 <= n <= 0xDE && n != 0xD7) then (n + 32) as char
    else if (0x100 <= n <= 0x12F || 0x132 <= n <= 0x137 || 0x14A <= n <= 0x177) && n % 2 == 0 then (n + 1) as char
    else if (0x139 <= n <= 0x148 || 0x179 <= n <= 0x17E) && n % 2 == 1 then (n + 1) as char
    else if n == 0x178 then 0xFF as char
    else if 0x410 <= n <= 0x42F then (n + 32) as char
    else if 0x400 <= n <= 0x40F then (n + 80) as char
    else c
  }

  /** `s.lower()`, character by character. */
  function Lower(s: string): (r: string)
    ensures |r| == |s| && forall i :: 0 <= i < |s| ==> r[i] == LowerChar(s[i])
  {
    seq(|s|, i requires 0 <= i < |s| => LowerChar(s[i]))
  }

  /** `s.replace(c, '')`: every occurrence of `c` removed, the rest kept in order. */
  function RemoveChar(s: string, c: char): (r: string)
    ensures |r| <= |s|
    ensures forall x :: x in r <==> x in s && x != c
    ensures c !in s ==> r == s
  {
    if s == [] then [] else (if s[0] == c then [] else [s[0]]) + RemoveChar(s[1..], c)
  }

  /** `s.replace(a, b)` for single characters `a` and `b`. */
  function ReplaceChar(s: string, a: char, b: char): (r: string)
    ensures |r| == |s|
    ensures forall i :: 0 <= i < |s| ==> r[i] == (if s[i] == a then b else s[i])
  {
    seq(|s|, i requires 0 <= i < |s| => if s[i] == a then b else s[i])
  }

  /** `s.rfind(c)`: the last index of `c`, or -1. */
  function RFind(s: string, c: char): (r: int)
    ensures -1 <= r < |s|
    ensures r == -1 <==> c !in s
    ensures r >= 0 ==> s[r] == c && forall j :: r < j < |s| ==> s[j] != c
  {
    if s == [] then -1
    else if s[|s| - 1] == c then |s| - 1
    else RFind(s[..|s| - 1], c)
  }

  /** `s.endswith(suffix)`. */
  predicate EndsWith(s: string, suffix: string) {
    |suffix| <= |s| && s[|s| - |suffix|..] == suffix
  }

  /** How many times `c` occurs in `s`. */
  function Count(s: string, c: char): nat {
    if s == [] then 0 else (if s[0] == c then 1 else 0) + Count(s[1..], c)
  }

  lemma {:induction false} CountAbsent(s: string, c: char)
    requires c !in s
    ensures Count(s, c) == 0
  {
    if s != [] {
      assert s[1..] <= s[1..];
      assert forall x :: x in s[1..] ==> x in s;
      CountAbsent(s[1..], c);
    }
  }

  lemma {:induction false} RemoveCommutes(s: string, a: char, b: char)
    ensures RemoveChar(RemoveChar(s, a), b) == RemoveChar(RemoveChar(s, b), a)
  {
    if s != [] {
      var h, t := [s[0]], s[1..];
      assert s == h + t;
      RemoveConcat(h, t, a);
      RemoveConcat(h, t, b);
      RemoveConcat(RemoveChar(h, a), RemoveChar(t, a), b);
      RemoveConcat(RemoveChar(h, b), RemoveChar(t, b), a);
      RemoveCommutes(t, a, b);
    }
  }

  /** Removing from a concatenation removes from each part. */
  lemma {:induction false} RemoveConcat(x: string, y: string, c: char)
    ensures RemoveChar(x + y, c) == RemoveChar(x, c) + RemoveChar(y, c)
  {
    if x != [] {
      assert (x + y)[1..] == x[1..] + y;
      RemoveConcat(x[1..], y, c);
    } else {
      assert x + y == y;
    }
  }

  lemma ReplaceTail(s: string, a: char, b: char)
    requires s != []
    ensures ReplaceChar(s, a, b) == [if s[0] == a then b else s[0]] + ReplaceChar(s[1..], a, b)
  {
  }

  /** Replacing in a concatenation replaces in each part. */
  lemma ReplaceConcat(x: string, y: string, a: char, b: char)
    ensures ReplaceChar(x + y, a, b) == ReplaceChar(x, a, b) + ReplaceChar(y, a, b)
  {
    var l, r := ReplaceChar(x + y, a, b), ReplaceChar(x, a, b) + ReplaceChar(y, a, b);
    assert |l| == |r|;
    forall i | 0 <= i < |l|
      ensures l[i] == r[i]
    {
      if i >= |x| {
        assert (x + y)[i] == y[i - |x|];
      }
    }
  }

  /** Replacing a character that does not occur changes nothing. */
  lemma ReplaceAbsent(s: string, a: char, b: char)
    requires a !in s
    ensures ReplaceChar(s, a, b) == s
  {
  }

  /** A character that occurs is counted. */
  lemma {:induction false} CountPresent(s: string, c: char)
    requires c in s
    ensures Count(s, c) > 0
  {
    if s[0] != c {
      assert c in s[1..];
      CountPresent(s[1..], c);
    }
  }

  /** Turning `a` into `b` and then removing `b` is the same as removing both. */
  lemma {:induction false} RemoveAfterReplace(s: string, a: char, b: char)
    ensures RemoveChar(ReplaceChar(s, a, b), b) == RemoveChar(RemoveChar(s, a), b)
  {
    if s != [] {
      var h, t := [s[0]], s[1..];
      assert s == h + t;
      var r := ReplaceChar(s, a, b);
      assert r == ReplaceChar(h, a, b) + ReplaceChar(t, a, b);
      RemoveConcat(ReplaceChar(h, a, b), ReplaceChar(t, a, b), b);
      RemoveConcat(h, t, a);
      RemoveConcat(RemoveChar(h, a), RemoveChar(t, a), b);
      RemoveAfterReplace(t, a, b);
    }
  }

  lemma {:induction false} CountRemoveOther(s: string, a: char, b: char)
    requires a != b
    ensures Count(RemoveChar(s, a), b) == Count(s, b)
  {
    if s != [] {
      CountRemoveOther(s[1..], a, b);
      CountConcat((if s[0] == a then [] else [s[0]]), RemoveChar(s[1..], a), b);
    }
  }

  lemma {:induction false} CountConcat(x: string, y: string, c: char)
    ensures Count(x + y, c) == Count(x, c) + Count(y, c)
  {
    if x != [] {
      assert (x + y)[1..] == x[1..] + y;
      CountConcat(x[1..], y, c);
    } else {
      assert x + y == y;
    }
  }

  lemma {:induction false} CountReplace(s: string, a: char, b: char)
    requires a != b
    ensures Count(ReplaceChar(s, a, b), b) == Count(s, a) + Count(s, b)
  {
    if s != [] {
      ReplaceTail(s, a, b);
      var t := ReplaceChar(s, a, b);
      assert t[1..] == ReplaceChar(s[1..], a, b);
      CountReplace(s[1..], a, b);
    }
  }
}
