/** The few Python string operations the backend relies on, with their
    meaning stated: `startswith`, `split` on a separator, `join`, `strip`,
    and `str` of an integer. */
module Text {
  import opened Results

  predicate StartsWith(s: string, prefix: string) {
    |prefix| <= |s| && s[..|prefix|] == prefix
  }

  /** `sep` occurs in `s` at index `i`. */
  predicate OccursAt(s: string, sep: string, i: int) {
    0 <= i && i + |sep| <= |s| && s[i..i + |sep|] == sep
  }

  predicate Contains(s: string, sep: string) {
    exists i :: 0 <= i <= |s| && OccursAt(s, sep, i)
  }

  /** The separator cannot overlap a shifted copy of itself: its first
      character appears nowhere else in it (true of ";base64,", "/" and "\n"). */
  predicate HeadUnique(sep: string) {
    |sep| > 0 && forall d :: 0 < d < |sep| ==> sep[d] != sep[0]
  }

  /** The first occurrence of `sep` in `s` at or after `from`. */
  function IndexOf(s: string, sep: string, from: nat): (r: Option<nat>)
    requires |sep| > 0
    decreases |s| - from
    ensures r.Some? ==> from <= r.value && OccursAt(s, sep, r.value)
    ensures r.Some? ==> forall j :: from <= j < r.value ==> !OccursAt(s, sep, j)
    ensures r.None? ==> forall j :: from <= j ==> !OccursAt(s, sep, j)
  {
    if from + |sep| > |s| then None
    else if s[from..from + |sep|] == sep then Some(from)
    else IndexOf(s, sep, from + 1)
  }

  /** Python's `sep.join(parts)`. */
  function Join(parts: seq<string>, sep: string): string {
    if |parts| == 0 then ""
    else if |parts| == 1 then parts[0]
    else parts[0] + sep + Join(parts[1..], sep)
  }

  /** Python's `s.split(sep)`: the pieces between the occurrences of `sep`,
      found left to right. Joining them back gives `s`, and no piece holds `sep`. */
  function Split(s: string, sep: string): (parts: seq<string>)
    requires |sep| > 0
    decreases |s|
    ensures |parts| >= 1
    ensures Join(parts, sep) == s
    ensures forall k :: 0 <= k < |parts| ==> !Contains(parts[k], sep)
  {
    match IndexOf(s, sep, 0)
    case None => [s]
    case Some(i) =>
      NoOccurrenceBefore(s, sep, i);
      var rest := Split(s[i + |sep|..], sep);
      assert ([s[..i]] + rest)[1..] == rest;
      assert s == s[..i] + sep + s[i + |sep|..] by {
        assert s[i..i + |sep|] == sep;
        assert s == s[..i] + s[i..i + |sep|] + s[i + |sep|..];
      }
      [s[..i]] + rest
  }

  function Last(parts: seq<string>): string
    requires |parts| > 0
  {
    parts[|parts| - 1]
  }

  lemma NoOccurrenceBefore(s: string, sep: string, i: int)
    requires |sep| > 0 && 0 <= i <= |s|
    requires forall j :: 0 <= j < i ==> !OccursAt(s, sep, j)
    ensures !Contains(s[..i], sep)
  {
    forall j | OccursAt(s[..i], sep, j)
      ensures false
    {
      assert s[..i][j..j + |sep|] == s[j..j + |sep|];
      assert OccursAt(s, sep, j);
    }
  }

  /** Joining after appending a piece puts one separator before it. */
  lemma {:induction false} JoinSnoc(parts: seq<string>, x: string, sep: string)
    requires |parts| >= 1
    ensures Join(parts + [x], sep) == Join(parts, sep) + sep + x
    decreases |parts|
  {
    if |parts| == 1 {
      assert (parts + [x])[1..] == [x];
    } else {
      assert (parts + [x])[1..] == parts[1..] + [x];
      JoinSnoc(parts[1..], x, sep);
    }
  }

  /** The last piece ends the joined string, right after the last separator. */
  lemma JoinLast(parts: seq<string>, sep: string)
    requires |parts| >= 1
    ensures |parts| == 1 ==> Join(parts, sep) == Last(parts)
    ensures |parts| > 1 ==> Join(parts, sep) == Join(parts[..|parts| - 1], sep) + sep + Last(parts)
  {
    if |parts| > 1 {
      assert parts == parts[..|parts| - 1] + [Last(parts)];
      JoinSnoc(parts[..|parts| - 1], Last(parts), sep);
    }
  }

  /** A one-character separator occurs exactly when the character does. */
  lemma ContainsChar(s: string, c: char)
    ensures Contains(s, [c]) <==> c in s
  {
    if c in s {
      var i :| 0 <= i < |s| && s[i] == c;
      assert s[i..i + 1] == [c];
      assert OccursAt(s, [c], i);
    }
    if Contains(s, [c]) {
      var i :| 0 <= i <= |s| && OccursAt(s, [c], i);
      assert s[i] == s[i..i + 1][0] == c;
    }
  }

  /** A string without the separator splits into itself alone, and only such a string does. */
  lemma SplitSingle(s: string, sep: string)
    requires |sep| > 0
    ensures |Split(s, sep)| == 1 <==> !Contains(s, sep)
  {
    var r := IndexOf(s, sep, 0);
    assert r.Some? ==> OccursAt(s, sep, r.value) && r.value <= |s|;
    if Contains(s, sep) {
      var i :| 0 <= i <= |s| && OccursAt(s, sep, i);
      assert r.Some?;
    }
  }

  /** Splitting `h + sep + rest`, where `h` holds no separator, cuts exactly after `h`. */
  lemma SplitAfterHead(h: string, sep: string, rest: string)
    requires HeadUnique(sep)
    requires !Contains(h, sep)
    ensures Split(h + sep + rest, sep) == [h] + Split(rest, sep)
  {
    var s := h + sep + rest;
    assert s[|h|..|h| + |sep|] == sep;
    assert OccursAt(s, sep, |h|);
    forall j | 0 <= j < |h|
      ensures !OccursAt(s, sep, j)
    {
      if j + |sep| <= |h| {
        assert s[j..j + |sep|] == h[j..j + |sep|];
        assert !OccursAt(h, sep, j);
      } else {
        var d := |h| - j;
        assert s[j..j + |sep|][d] == s[|h|] == sep[0] != sep[d];
      }
    }
    var i := IndexOf(s, sep, 0).value;
    assert i == |h|;
    assert s[..i] == h;
    assert s[i + |sep|..] == rest;
  }

  /** The character that writes the decimal digit `d`. */
  function DigitChar(d: int): char
    requires 0 <= d < 10
  {
    "0123456789"[d]
  }

  predicate IsDigit(c: char) {
    '0' <= c <= '9'
  }

  function DigitValue(c: char): int
    requires IsDigit(c)
  {
    c as int - '0' as int
  }

  /** `str(n)` for a non-negative `n`: its decimal digits, most significant first. */
  function NatToString(n: nat): (s: string)
    decreases n
  {
    if n < 10 then [DigitChar(n)]
    else NatToString(n / 10) + [DigitChar(n % 10)]
  }

  /** Python's `str(n)` for an integer (also what an f-string prints). */
  function IntToString(n: int): string {
    if n < 0 then "-" + NatToString(-n) else NatToString(n)
  }

  /** The number a string of decimal digits denotes. */
  function DecimalValue(s: string): int
    requires forall k :: 0 <= k < |s| ==> IsDigit(s[k])
    decreases |s|
  {
    if |s| == 0 then 0
    else DecimalValue(s[..|s| - 1]) * 10 + DigitValue(s[|s| - 1])
  }

  /** Python's `int(s)` on what `str` writes. */
  function ParseInt(s: string): Option<int> {
    if |s| > 0 && s[0] == '-' && |s| > 1 && (forall k :: 1 <= k < |s| ==> IsDigit(s[k])) then
      Some(-DecimalValue(s[1..]))
    else if |s| > 0 && (forall k :: 0 <= k < |s| ==> IsDigit(s[k])) then
      Some(DecimalValue(s))
    else None
  }

  /** The digits of `n` are decimal digits, without a leading zero, and read back as `n`. */
  lemma {:induction false} NatToStringDigits(n: nat)
    ensures |NatToString(n)| >= 1
    ensures forall k :: 0 <= k < |NatToString(n)| ==> IsDigit(NatToString(n)[k])
    ensures |NatToString(n)| == 1 || NatToString(n)[0] != '0'
    ensures DecimalValue(NatToString(n)) == n
    decreases n
  {
    var s := NatToString(n);
    if n < 10 {
      assert DecimalValue(s) == DecimalValue(s[..0]) * 10 + DigitValue(s[0]);
    } else {
      NatToStringDigits(n / 10);
      var p := NatToString(n / 10);
      assert s == p + [DigitChar(n % 10)];
      assert s[..|s| - 1] == p;
      assert s[0] == p[0];
    }
  }

  lemma ParseDigits(s: string)
    requires |s| >= 1 && forall k :: 0 <= k < |s| ==> IsDigit(s[k])
    ensures ParseInt(s) == Some(DecimalValue(s))
  {
    assert s[0] != '-';
  }

  lemma ParseNegative(t: string)
    requires |t| >= 1 && forall k :: 0 <= k < |t| ==> IsDigit(t[k])
    ensures ParseInt("-" + t) == Some(-DecimalValue(t))
  {
    var s := "-" + t;
    assert s[1..] == t;
    assert forall k :: 1 <= k < |s| ==> s[k] == t[k - 1];
  }

  /** `int(str(n)) == n`. */
  lemma IntToStringRoundTrip(n: int)
    ensures ParseInt(IntToString(n)) == Some(n)
    ensures forall k :: 0 <= k < |IntToString(n)| ==> IntToString(n)[k] == '-' || IsDigit(IntToString(n)[k])
  {
    if n < 0 {
      NegativeRoundTrip(n);
    } else {
      NatToStringDigits(n);
      ParseDigits(NatToString(n));
    }
  }

  lemma NegativeRoundTrip(n: int)
    requires n < 0
    ensures ParseInt(IntToString(n)) == Some(n)
    ensures forall k :: 0 <= k < |IntToString(n)| ==> IntToString(n)[k] == '-' || IsDigit(IntToString(n)[k])
  {
    NatToStringDigits(-n);
    ParseNegative(NatToString(-n));
    SignAndDigits(NatToString(-n));
  }

  /** A minus sign followed by digits consists of a sign and digits only. */
  lemma SignAndDigits(t: string)
    requires forall k :: 0 <= k < |t| ==> IsDigit(t[k])
    ensures forall k :: 0 <= k < |"-" + t| ==> ("-" + t)[k] == '-' || IsDigit(("-" + t)[k])
  {
    var w := "-" + t;
    forall k | 0 <= k < |w|
      ensures w[k] == '-' || IsDigit(w[k])
    {
      if k > 0 {
        assert w[k] == t[k - 1];
      }
    }
  }

  // ------------------------------------------------------------- strip

  /** Python's `str.isspace` for one character: the ASCII whitespace, the
      separators `\x1c`-`\x1f`, and the Unicode spaces and line breaks. */
  predicate IsSpace(c: char) {
    || c == ' ' || ('\t' <= c <= '\r') || ('\U{1c}' <= c <= '\U{1f}')
    || c == '\U{85}' || c == '\U{a0}' || c == '\U{1680}' || ('\U{2000}' <= c <= '\U{200a}')
    || c == '\U{2028}' || c == '\U{2029}' || c == '\U{202f}' || c == '\U{205f}' || c == '\U{3000}'
  }

  /** Empty or whitespace only: what a field that refuses blank values refuses. */
  predicate Blank(s: string) {
    forall k :: 0 <= k < |s| ==> IsSpace(s[k])
  }

  /** `lstrip()`: the suffix left after dropping the leading whitespace. */
  function StripLeft(s: string): (r: string)
    ensures |r| <= |s| && r == s[|s| - |r|..]
    ensures forall k :: 0 <= k < |s| - |r| ==> IsSpace(s[k])
    ensures |r| == 0 || !IsSpace(r[0])
    decreases |s|
  {
    if |s| > 0 && IsSpace(s[0]) then StripLeft(s[1..]) else s
  }

  /** `rstrip()`: the prefix left after dropping the trailing whitespace. */
  function StripRight(s: string): (r: string)
    ensures |r| <= |s| && r == s[..|r|]
    ensures forall k :: |r| <= k < |s| ==> IsSpace(s[k])
    ensures |r| == 0 || !IsSpace(r[|r| - 1])
    decreases |s|
  {
    if |s| > 0 && IsSpace(s[|s| - 1]) then StripRight(s[..|s| - 1]) else s
  }

  /** `strip()`: the text without leading and trailing whitespace. It is
      empty exactly when the text is blank, that is, whitespace only. */
  function Strip(s: string): (r: string)
    ensures |r| == 0 || (!IsSpace(r[0]) && !IsSpace(r[|r| - 1]))
    ensures r == "" <==> Blank(s)
  {
    var left := StripLeft(s);
    if |left| > 0 then
      StripRightKeepsHead(left);
      StripRight(left)
    else
      StripRight(left)
  }

  /** `rstrip()` of a text that starts with a non-space keeps that first character. */
  lemma StripRightKeepsHead(x: string)
    requires |x| > 0 && !IsSpace(x[0])
    ensures |StripRight(x)| > 0 && StripRight(x)[0] == x[0]
  {
  }

  /** Whitespace in front of a text that does not start with whitespace is all `lstrip()` removes. */
  lemma {:induction false} StripLeftPadded(pad: string, rest: string)
    requires forall k :: 0 <= k < |pad| ==> IsSpace(pad[k])
    requires |rest| == 0 || !IsSpace(rest[0])
    ensures StripLeft(pad + rest) == rest
    decreases |pad|
  {
    if |pad| > 0 {
      assert (pad + rest)[1..] == pad[1..] + rest;
      StripLeftPadded(pad[1..], rest);
    } else {
      assert pad + rest == rest;
    }
  }

  /** Whitespace after a text that does not end in whitespace is all `rstrip()` removes. */
  lemma {:induction false} StripRightPadded(rest: string, pad: string)
    requires forall k :: 0 <= k < |pad| ==> IsSpace(pad[k])
    requires |rest| == 0 || !IsSpace(rest[|rest| - 1])
    ensures StripRight(rest + pad) == rest
    decreases |pad|
  {
    if |pad| > 0 {
      assert (rest + pad)[..|rest + pad| - 1] == rest + pad[..|pad| - 1];
      StripRightPadded(rest, pad[..|pad| - 1]);
    } else {
      assert rest + pad == rest;
    }
  }

  /** Surrounding a text that neither starts nor ends with whitespace by
      whitespace on both sides, and stripping, gives the text back. */
  lemma StripPadded(before: string, core: string, after: string)
    requires forall k :: 0 <= k < |before| ==> IsSpace(before[k])
    requires forall k :: 0 <= k < |after| ==> IsSpace(after[k])
    requires |core| == 0 || (!IsSpace(core[0]) && !IsSpace(core[|core| - 1]))
    ensures Strip(before + core + after) == core
  {
    if |core| == 0 {
      assert before + core + after == (before + after) + "";
      StripLeftPadded(before + after, "");
      StripRightPadded("", "");
    } else {
      assert before + core + after == before + (core + after);
      StripLeftPadded(before, core + after);
      StripRightPadded(core, after);
    }
  }

  /** Stripping twice is stripping once. */
  lemma StripTwice(s: string)
    ensures Strip(Strip(s)) == Strip(s)
  {
    var r := Strip(s);
    assert "" + r == r && r + "" == r;
    StripLeftPadded("", r);
    StripRightPadded(r, "");
    assert Strip(r) == StripRight(StripLeft(r));
  }

  /** Every text is its stripped form with whitespace before and after it. */
  lemma StripSplit(x: string) returns (pre: string, post: string)
    ensures x == pre + Strip(x) + post
    ensures forall k :: 0 <= k < |pre| ==> IsSpace(pre[k])
    ensures forall k :: 0 <= k < |post| ==> IsSpace(post[k])
  {
    var left := StripLeft(x);
    pre := LeftSplit(x);
    post := RightSplit(left);
    assert Strip(x) == StripRight(left);
    ConcatAssoc(pre, StripRight(left), post);
  }

  lemma LeftSplit(x: string) returns (pre: string)
    ensures x == pre + StripLeft(x)
    ensures forall k :: 0 <= k < |pre| ==> IsSpace(pre[k])
  {
    var left := StripLeft(x);
    var n := |x| - |left|;
    pre := x[..n];
    assert x[n..] == left;
    TakeDrop(x, n);
  }

  lemma RightSplit(y: string) returns (post: string)
    ensures y == StripRight(y) + post
    ensures forall k :: 0 <= k < |post| ==> IsSpace(post[k])
  {
    var core := StripRight(y);
    post := y[|core|..];
    assert y[..|core|] == core;
    TakeDrop(y, |core|);
    forall k | 0 <= k < |post|
      ensures IsSpace(post[k])
    {
      assert post[k] == y[|core| + k];
    }
  }

  lemma AllSpaceAppend(a: string, b: string)
    requires forall k :: 0 <= k < |a| ==> IsSpace(a[k])
    requires forall k :: 0 <= k < |b| ==> IsSpace(b[k])
    ensures forall k :: 0 <= k < |a + b| ==> IsSpace((a + b)[k])
  {
  }

  lemma TakeDrop(x: string, n: nat)
    requires n <= |x|
    ensures x == x[..n] + x[n..]
  {
  }

  lemma ConcatAssoc(a: string, b: string, c: string)
    ensures a + (b + c) == a + b + c
  {
  }

  lemma Regroup(a: string, b: string, c: string, d: string, e: string)
    ensures a + (b + c + d) + e == (a + b) + c + (d + e)
  {
  }

  /** Whitespace added around a text does not change what `strip()` gives. */
  lemma StripIgnoresPadding(before: string, x: string, after: string)
    requires forall k :: 0 <= k < |before| ==> IsSpace(before[k])
    requires forall k :: 0 <= k < |after| ==> IsSpace(after[k])
    ensures Strip(before + x + after) == Strip(x)
  {
    var pre, post := StripSplit(x);
    var core := Strip(x);
    Regroup(before, pre, core, post, after);
    AllSpaceAppend(before, pre);
    AllSpaceAppend(post, after);
    StripPadded(before + pre, core, post + after);
  }
}
