/** The Python string and path builtins that the downloader relies on, each
    stated as the language defines it: str.isspace, str.strip, str.find,
    str.startswith, str.split (with and without a separator), int() on a
    str, the decimal rendering of a non-negative int, and POSIX
    os.path.basename / os.path.join. */
module PyText {
  import opened Wrappers

  /** str.isspace() of one character: the Unicode white-space characters
      plus the ASCII separators 0x1C-0x1F, which Python also counts. */
  predicate IsSpace(c: char)
  {
    || c == ' '
    || '\t' <= c <= '\r'
    || '\U{1c}' <= c <= '\U{1f}'
    || c == '\U{85}' || c == '\U{a0}' || c == '\U{1680}'
    || '\U{2000}' <= c <= '\U{200a}'
    || c == '\U{2028}' || c == '\U{2029}' || c == '\U{202f}' || c == '\U{205f}' || c == '\U{3000}'
  }

  predicate AllSpace(s: string)
  {
    forall k :: 0 <= k < |s| ==> IsSpace(s[k])
  }

  predicate NoSpace(s: string)
  {
    forall k :: 0 <= k < |s| ==> !IsSpace(s[k])
  }

  lemma NoSpaceAppend(a: string, b: string)
    requires NoSpace(a) && NoSpace(b)
    ensures NoSpace(a + b)
  {
    forall k | 0 <= k < |a + b| ensures !IsSpace((a + b)[k]) {
      if k >= |a| {
        assert (a + b)[k] == b[k - |a|];
      }
    }
  }

  /** The first index at or after i that does not hold white space, |s|
      when there is none. */
  function SkipSpace(s: string, i: nat): (j: nat)
    requires i <= |s|
    ensures i <= j <= |s|
    ensures forall k :: i <= k < j ==> IsSpace(s[k])
    ensures j == |s| || !IsSpace(s[j])
    decreases |s| - i
  {
    if i == |s| || !IsSpace(s[i]) then i else SkipSpace(s, i + 1)
  }

  /** Any index that ends a run of white space starting at i is where
      SkipSpace stops. */
  lemma {:induction false} SkipSpaceAt(s: string, i: nat, j: nat)
    requires i <= j <= |s|
    requires forall k :: i <= k < j ==> IsSpace(s[k])
    requires j == |s| || !IsSpace(s[j])
    ensures SkipSpace(s, i) == j
    decreases j - i
  {
    if i < j {
      SkipSpaceAt(s, i + 1, j);
    }
  }

  /** The index just past the last character before j that is not white
      space, 0 when there is none. */
  function TrimEnd(s: string, j: nat): (i: nat)
    requires j <= |s|
    ensures i <= j
    ensures forall k :: i <= k < j ==> IsSpace(s[k])
    ensures i == 0 || !IsSpace(s[i - 1])
  {
    if j == 0 || !IsSpace(s[j - 1]) then j else TrimEnd(s, j - 1)
  }

  /** Any index that ends s[..j] after a run of white space is where
      TrimEnd stops. */
  lemma {:induction false} TrimEndAt(s: string, i: nat, j: nat)
    requires i <= j <= |s|
    requires forall k :: i <= k < j ==> IsSpace(s[k])
    requires i == 0 || !IsSpace(s[i - 1])
    ensures TrimEnd(s, j) == i
    decreases j - i
  {
    if i < j {
      TrimEndAt(s, i, j - 1);
    }
  }

  /** The first index at or after i that holds white space, |s| when there
      is none. */
  function SkipWord(s: string, i: nat): (j: nat)
    requires i <= |s|
    ensures i <= j <= |s|
    ensures forall k :: i <= k < j ==> !IsSpace(s[k])
    ensures j == |s| || IsSpace(s[j])
    decreases |s| - i
  {
    if i == |s| || IsSpace(s[i]) then i else SkipWord(s, i + 1)
  }

  /** Any index that ends a run of non-white-space starting at i is where
      SkipWord stops. */
  lemma {:induction false} SkipWordAt(s: string, i: nat, j: nat)
    requires i <= j <= |s|
    requires forall k :: i <= k < j ==> !IsSpace(s[k])
    requires j == |s| || IsSpace(s[j])
    ensures SkipWord(s, i) == j
    decreases j - i
  {
    if i < j {
      SkipWordAt(s, i + 1, j);
    }
  }

  /** str.lstrip(): drop the leading white space. */
  function StripLeft(s: string): (r: string)
    ensures |r| <= |s| && r == s[|s| - |r|..]
    ensures AllSpace(s[..|s| - |r|])
    ensures r == [] || !IsSpace(r[0])
  {
    var j := SkipSpace(s, 0);
    assert AllSpace(s[..j]) by {
      forall k | 0 <= k < j ensures IsSpace(s[..j][k]) {
        assert s[..j][k] == s[k];
      }
    }
    s[j..]
  }

  /** str.rstrip(): drop the trailing white space. */
  function StripRight(s: string): (r: string)
    ensures |r| <= |s| && r == s[..|r|]
    ensures AllSpace(s[|r|..])
    ensures r == [] || !IsSpace(r[|r| - 1])
  {
    var i := TrimEnd(s, |s|);
    assert AllSpace(s[i..]) by {
      forall k | 0 <= k < |s| - i ensures IsSpace(s[i..][k]) {
        assert s[i..][k] == s[i + k];
      }
    }
    s[..i]
  }

  /** str.strip(): drop the white space at both ends. */
  function Strip(s: string): (r: string)
    ensures |r| <= |s|
    ensures r == [] || (!IsSpace(r[0]) && !IsSpace(r[|r| - 1]))
  {
    var t := StripLeft(s);
    var r := StripRight(t);
    assert r != [] ==> r[0] == t[0];
    r
  }

  /** What str.strip() keeps is a slice of s, and everything it cuts off on
      either side is white space. */
  lemma StripKeepsMiddle(s: string)
    ensures var r := Strip(s);
      exists i :: 0 <= i <= |s| - |r| && r == s[i..i + |r|] && AllSpace(s[..i]) && AllSpace(s[i + |r|..])
  {
    var i := |s| - |StripLeft(s)|;
    StripMiddleAt(s, i);
  }

  lemma StripMiddleAt(s: string, i: int)
    requires i == |s| - |StripLeft(s)|
    ensures var r := Strip(s);
      0 <= i <= |s| - |r| && r == s[i..i + |r|] && AllSpace(s[..i]) && AllSpace(s[i + |r|..])
  {
    var t := StripLeft(s);
    var r := StripRight(t);
    assert Strip(s) == r;
    MiddleOfSuffix(s, t, r, i);
  }

  /** A prefix r of the suffix t of s at i, followed in t by white space only. */
  lemma MiddleOfSuffix(s: string, t: string, r: string, i: int)
    requires 0 <= i <= |s| && t == s[i..]
    requires |r| <= |t| && r == t[..|r|] && AllSpace(t[|r|..])
    ensures r == s[i..i + |r|] && AllSpace(s[i + |r|..])
  {
    SlicesOfSuffix(s, i, |r|);
  }

  lemma SlicesOfSuffix<T>(s: seq<T>, i: nat, n: nat)
    requires i + n <= |s|
    ensures s[i..][..n] == s[i..i + n]
    ensures s[i..][n..] == s[i + n..]
  {
  }

  /** A string without white space is its own strip. */
  lemma StripWithoutSpace(s: string)
    requires NoSpace(s)
    ensures Strip(s) == s
  {
    SkipSpaceAt(s, 0, 0);
    assert StripLeft(s) == s;
    TrimEndAt(s, |s|, |s|);
    assert StripRight(s) == s;
  }

  predicate StartsWith<T(==)>(s: seq<T>, prefix: seq<T>)
  {
    |prefix| <= |s| && s[..|prefix|] == prefix
  }

  /** pat occurs in s at index k. */
  predicate OccursAt<T(==)>(s: seq<T>, pat: seq<T>, k: int)
  {
    0 <= k && k + |pat| <= |s| && s[k..k + |pat|] == pat
  }

  function FindFrom<T(==)>(s: seq<T>, pat: seq<T>, i: nat): (r: int)
    requires i <= |s|
    ensures r == -1 || i <= r <= |s|
    ensures r == -1 ==> forall k :: i <= k ==> !OccursAt(s, pat, k)
    ensures r != -1 ==> OccursAt(s, pat, r) && forall k :: i <= k < r ==> !OccursAt(s, pat, k)
    decreases |s| - i
  {
    if i + |pat| > |s| then -1
    else if s[i..i + |pat|] == pat then i
    else FindFrom(s, pat, i + 1)
  }

  /** str.find(pat): the index of the first occurrence of pat in s, -1 when
      there is none. */
  function Find<T(==)>(s: seq<T>, pat: seq<T>): (r: int)
    ensures -1 <= r <= |s|
    ensures r == -1 <==> forall k :: !OccursAt(s, pat, k)
    ensures r != -1 ==> OccursAt(s, pat, r) && forall k :: 0 <= k < r ==> !OccursAt(s, pat, k)
  {
    FindFrom(s, pat, 0)
  }

  /** A one-character pattern is found exactly where it first appears. */
  lemma FindChar(a: string, c: char, b: string)
    requires c !in a
    ensures Find(a, [c]) == -1
    ensures Find(a + [c] + b, [c]) == |a|
  {
    var s := a + [c] + b;
    forall k | 0 <= k < |a| ensures !OccursAt(a, [c], k) {
      assert a[k..k + 1][0] == a[k];
    }
    assert OccursAt(s, [c], |a|) by {
      assert s[|a|..|a| + 1] == [c];
    }
    forall k | 0 <= k < |a| ensures !OccursAt(s, [c], k) {
      assert s[k..k + 1][0] == s[k] == a[k];
    }
  }

  /** s.split(sep)[0]: the part of s before the first sep, or all of s. */
  function SplitFirst(s: string, sep: string): (r: string)
    requires sep != []
    ensures |r| <= |s| && r == s[..|r|]
    ensures r == s || OccursAt(s, sep, |r|)
    ensures forall k :: 0 <= k < |r| ==> !OccursAt(s, sep, k)
  {
    var k := Find(s, sep);
    if k == -1 then s else s[..k]
  }

  /** The longest prefix of s that holds no white space. */
  function Word(s: string): (r: string)
    ensures |r| <= |s| && r == s[..|r|]
    ensures NoSpace(r)
    ensures |r| == |s| || IsSpace(s[|r|])
  {
    var j := SkipWord(s, 0);
    assert NoSpace(s[..j]) by {
      forall k | 0 <= k < j ensures !IsSpace(s[..j][k]) {
        assert s[..j][k] == s[k];
      }
    }
    s[..j]
  }

  /** str.split() with no separator: the maximal runs of non-white-space
      characters, in order. */
  function Tokens(s: string): seq<string>
    decreases |s|
  {
    var t := StripLeft(s);
    if t == [] then []
    else
      var w := Word(t);
      assert |w| != 0 by {
        assert !IsSpace(t[0]);
      }
      [w] + Tokens(t[|w|..])
  }

  /** Every token is non-empty and holds no white space. */
  lemma {:induction false} TokensAreWords(s: string)
    ensures forall j :: 0 <= j < |Tokens(s)| ==> Tokens(s)[j] != [] && NoSpace(Tokens(s)[j])
    decreases |s|
  {
    var t := StripLeft(s);
    if t != [] {
      var w := Word(t);
      var rest := t[|w|..];
      TokensAreWords(rest);
      var tail := Tokens(rest);
      var r := Tokens(s);
      assert r == [w] + tail;
      forall j | 0 <= j < |r| ensures r[j] != [] && NoSpace(r[j]) {
        if j > 0 {
          assert r[j] == tail[j - 1];
        }
      }
    }
  }

  lemma WordOfPrefix(w: string, rest: string)
    requires NoSpace(w)
    requires rest == [] || IsSpace(rest[0])
    ensures Word(w + rest) == w
  {
    var s := w + rest;
    forall k | 0 <= k < |w| ensures !IsSpace(s[k]) {
      assert s[k] == w[k];
    }
    assert |w| < |s| ==> s[|w|] == rest[0];
    SkipWordAt(s, 0, |w|);
    assert s[..|w|] == w;
  }

  /** A leading non-empty word followed by white space (or nothing) is the
      first token, and the rest is split independently. */
  lemma TokensCons(w: string, rest: string)
    requires w != [] && NoSpace(w)
    requires rest == [] || IsSpace(rest[0])
    ensures Tokens(w + rest) == [w] + Tokens(rest)
  {
    var s := w + rest;
    assert StripLeft(s) == s;
    WordOfPrefix(w, rest);
    assert s[|w|..] == rest;
  }

  lemma StripLeftSkipsSpace(sp: string, x: string)
    requires AllSpace(sp)
    ensures StripLeft(sp + x) == StripLeft(x)
  {
    var s := sp + x;
    var j := SkipSpace(x, 0);
    forall k | 0 <= k < |sp| + j ensures IsSpace(s[k]) {
      if k < |sp| {
        assert s[k] == sp[k];
      } else {
        assert s[k] == x[k - |sp|];
      }
    }
    assert j < |x| ==> s[|sp| + j] == x[j];
    SkipSpaceAt(s, 0, |sp| + j);
    assert s[|sp| + j..] == x[j..];
  }

  /** A string of white space alone has no tokens. */
  lemma TokensOfSpace(s: string)
    requires AllSpace(s)
    ensures Tokens(s) == []
  {
    SkipSpaceAt(s, 0, |s|);
  }

  /** Leading white space does not change the split. */
  lemma TokensSkipSpace(sp: string, x: string)
    requires AllSpace(sp)
    ensures Tokens(sp + x) == Tokens(x)
  {
    StripLeftSkipsSpace(sp, x);
  }

  /** A single space before the text does not change the split. */
  lemma TokensAfterSpace(y: string)
    ensures Tokens([' '] + y) == Tokens(y)
  {
    assert AllSpace([' ']);
    TokensSkipSpace([' '], y);
  }

  /** Two words separated by one space open the split. */
  lemma TwoTokens(a: string, b: string, rest: string)
    requires a != [] && NoSpace(a) && b != [] && NoSpace(b)
    requires rest == [] || IsSpace(rest[0])
    ensures Tokens(a + ([' '] + (b + rest))) == [a, b] + Tokens(rest)
  {
    TokensCons(a, [' '] + (b + rest));
    TokensAfterSpace(b + rest);
    TokensCons(b, rest);
    Regroup(a, b, Tokens(rest));
  }

  lemma Regroup<X>(a: X, b: X, s: seq<X>)
    ensures [a] + ([b] + s) == [a, b] + s
  {
  }

  predicate IsDigit(c: char)
  {
    '0' <= c <= '9'
  }

  /** The digit part that int() accepts: a digit, then more digits, each
      possibly preceded by a single underscore. */
  predicate IsDigitString(s: string)
    decreases |s|
  {
    && |s| > 0
    && IsDigit(s[0])
    && (|s| == 1 || IsDigitString(if s[1] == '_' then s[2..] else s[1..]))
  }

  lemma {:induction false} DigitsAreDigitString(s: string)
    requires s != [] && forall k :: 0 <= k < |s| ==> IsDigit(s[k])
    ensures IsDigitString(s)
    decreases |s|
  {
    if |s| > 1 {
      DigitsAreDigitString(s[1..]);
    }
  }

  /** The value of a digit string, underscores skipped. */
  function DigitsValue(s: string): nat
  {
    if s == [] then 0
    else if IsDigit(s[|s| - 1]) then 10 * DigitsValue(s[..|s| - 1]) + (s[|s| - 1] as int - '0' as int)
    else DigitsValue(s[..|s| - 1])
  }

  /** int(s) for a str s: surrounding white space is ignored, then an
      optional sign and a digit string; anything else raises ValueError,
      modelled as None. White space here is the str.isspace set, which is
      wider than what int() skips (it rejects '\x1c' to '\x1f', say); the
      model is exact on strings without white space, such as the tokens
      of str.split(). */
  function ParseInt(s: string): Option<int>
  {
    ParseStripped(Strip(s))
  }

  /** int() once the white space is gone: a sign and a digit string, or a
      digit string alone. */
  function ParseStripped(t: string): Option<int>
  {
    if t != [] && (t[0] == '+' || t[0] == '-') then
      if IsDigitString(t[1..]) then
        var magnitude: int := DigitsValue(t[1..]);
        Some(if t[0] == '-' then -magnitude else magnitude)
      else None
    else if IsDigitString(t) then Some(DigitsValue(t))
    else None
  }

  function DigitChar(d: nat): (c: char)
    requires d < 10
    ensures IsDigit(c) && c as int - '0' as int == d
  {
    ('0' as int + d) as char
  }

  /** n // 10, by repeated subtraction so that proofs about digits stay in
      linear arithmetic. */
  function Div10(n: nat): (q: nat)
    ensures 10 * q <= n < 10 * q + 10
  {
    if n < 10 then 0 else Div10(n - 10) + 1
  }

  /** f"{n}" for a non-negative int: its decimal digits, most significant first. */
  function Decimal(n: nat): string
  {
    if n < 10 then [DigitChar(n)] else Decimal(Div10(n)) + [DigitChar(n - 10 * Div10(n))]
  }

  /** f"{n}" writes at least one character, and only digits. */
  lemma {:induction false} DecimalDigits(n: nat)
    ensures Decimal(n) != [] && forall k :: 0 <= k < |Decimal(n)| ==> IsDigit(Decimal(n)[k])
    decreases n
  {
    if n >= 10 {
      var q := Div10(n);
      DecimalDigits(q);
      var d := Decimal(n);
      var front := Decimal(q);
      assert d == front + [DigitChar(n - 10 * q)];
      forall k | 0 <= k < |d| ensures IsDigit(d[k]) {
        if k < |front| {
          assert d[k] == front[k];
        }
      }
    }
  }

  /** f"{n}" writes no leading zero: it starts with '0' only for 0 itself,
      and 0 is written as the single digit "0". */
  lemma {:induction false} DecimalNoLeadingZero(n: nat)
    ensures Decimal(n)[0] == '0' <==> n == 0
    ensures n == 0 ==> Decimal(n) == "0"
    decreases n
  {
    if n >= 10 {
      var q := Div10(n);
      DecimalNoLeadingZero(q);
      DecimalDigits(q);
      assert Decimal(n)[0] == Decimal(q)[0];
    }
  }

  lemma DecimalHasNoSpace(n: nat)
    ensures NoSpace(Decimal(n))
  {
    var d := Decimal(n);
    DecimalDigits(n);
    forall k | 0 <= k < |d| ensures !IsSpace(d[k]) {
      assert IsDigit(d[k]);
    }
  }

  lemma {:induction false} DecimalValue(n: nat)
    ensures DigitsValue(Decimal(n)) == n
  {
    var d := Decimal(n);
    DecimalDigits(n);
    if n >= 10 {
      DecimalValue(Div10(n));
      assert d[..|d| - 1] == Decimal(Div10(n));
    } else {
      assert d[..|d| - 1] == [];
    }
  }

  /** int() of a bare digit string is its value. */
  lemma ParseDigits(t: string)
    requires IsDigitString(t)
    ensures ParseInt(t) == Some(DigitsValue(t))
  {
    DigitStringHasNoSpace(t);
    StripWithoutSpace(t);
  }

  lemma {:induction false} DigitStringHasNoSpace(s: string)
    requires IsDigitString(s)
    ensures NoSpace(s)
    decreases |s|
  {
    if |s| > 1 {
      var rest := if s[1] == '_' then s[2..] else s[1..];
      DigitStringHasNoSpace(rest);
      forall k | 0 <= k < |s| ensures !IsSpace(s[k]) {
        if k > 0 && s[1] == '_' && k > 1 {
          assert s[k] == rest[k - 2];
        } else if k > 0 && s[1] != '_' {
          assert s[k] == rest[k - 1];
        }
      }
    }
  }

  /** A character int() may accept at index k of a stripped string: a digit,
      an underscore, or a sign in front. */
  predicate IntChar(t: string, k: nat)
    requires k < |t|
  {
    IsDigit(t[k]) || t[k] == '_' || (k == 0 && (t[k] == '+' || t[k] == '-'))
  }

  lemma {:induction false} DigitStringChars(s: string)
    requires IsDigitString(s)
    ensures forall k :: 0 <= k < |s| ==> IsDigit(s[k]) || s[k] == '_'
    decreases |s|
  {
    if |s| > 1 {
      var rest := if s[1] == '_' then s[2..] else s[1..];
      DigitStringChars(rest);
      forall k | 0 <= k < |s| ensures IsDigit(s[k]) || s[k] == '_' {
        if k >= 2 && s[1] == '_' {
          assert s[k] == rest[k - 2];
        } else if k >= 1 && s[1] != '_' {
          assert s[k] == rest[k - 1];
        }
      }
    }
  }

  /** int() raises (None here) on anything but a sign, digits and
      underscores once the white space is stripped: an empty string, a word
      such as "OK", a code followed by text. */
  lemma ParseIntRejects(s: string)
    ensures ParseInt(s).Some? ==>
      var t := Strip(s);
      t != [] && forall k :: 0 <= k < |t| ==> IntChar(t, k)
  {
    var t := Strip(s);
    if ParseInt(s).Some? {
      if t != [] && (t[0] == '+' || t[0] == '-') {
        DigitStringChars(t[1..]);
        forall k | 0 <= k < |t| ensures IntChar(t, k) {
          if k > 0 {
            assert t[k] == t[1..][k - 1];
          }
        }
      } else {
        DigitStringChars(t);
      }
    }
  }


  /** int() also takes an explicit sign in front of the digits. */
  lemma ParseSigned(s: string)
    requires |s| >= 2 && (s[0] == '+' || s[0] == '-') && IsDigitString(s[1..])
    ensures ParseInt(s) == Some(if s[0] == '-' then -(DigitsValue(s[1..]) as int) else DigitsValue(s[1..]))
  {
    DigitStringHasNoSpace(s[1..]);
    SignedHasNoSpace(s);
    StripWithoutSpace(s);
  }

  lemma SignedHasNoSpace(s: string)
    requires s != [] && (s[0] == '+' || s[0] == '-') && NoSpace(s[1..])
    ensures NoSpace(s)
  {
    forall k | 0 <= k < |s| ensures !IsSpace(s[k]) {
      if k > 0 {
        assert s[k] == s[1..][k - 1];
      }
    }
  }

  /** int() reads back what f"{n}" writes. */
  lemma ParseDecimal(n: nat)
    ensures ParseInt(Decimal(n)) == Some(n)
  {
    var d := Decimal(n);
    DecimalDigits(n);
    DecimalHasNoSpace(n);
    DigitsAreDigitString(d);
    ParseDigits(d);
    DecimalValue(n);
  }

  /** f"{n}" never writes the same text for two different numbers. */
  lemma DecimalInjective(m: nat, n: nat)
    requires Decimal(m) == Decimal(n)
    ensures m == n
  {
    ParseDecimal(m);
    ParseDecimal(n);
  }

  /** The index just past the last '/' before j, 0 when there is none. */
  function NameStart(p: string, j: nat): (i: nat)
    requires j <= |p|
    ensures i <= j
    ensures forall k :: i <= k < j ==> p[k] != '/'
    ensures i == 0 || p[i - 1] == '/'
  {
    if j == 0 || p[j - 1] == '/' then j else NameStart(p, j - 1)
  }

  /** Any index that starts a '/'-free run ending at j, right after a '/'
      or at the start, is where NameStart stops. */
  lemma {:induction false} NameStartAt(p: string, i: nat, j: nat)
    requires i <= j <= |p|
    requires forall k :: i <= k < j ==> p[k] != '/'
    requires i == 0 || p[i - 1] == '/'
    ensures NameStart(p, j) == i
    decreases j - i
  {
    if i < j {
      NameStartAt(p, i, j - 1);
    }
  }

  /** os.path.basename(p) on POSIX: the longest suffix of p without '/',
      that is, everything after the last '/'. */
  function Basename(p: string): string
  {
    p[NameStart(p, |p|)..]
  }

  /** The base name is a suffix of the path without '/', and it is the
      whole path or follows a '/': what is left after the last '/'. */
  lemma BasenameIsLastName(p: string)
    ensures var r := Basename(p);
      && '/' !in r
      && |r| <= |p| && r == p[|p| - |r|..]
      && (|r| == |p| || p[|p| - |r| - 1] == '/')
  {
    var i := NameStart(p, |p|);
    forall k | 0 <= k < |p| - i ensures p[i..][k] != '/' {
      assert p[i..][k] == p[i + k];
    }
  }

  /** os.path.join(a, b) on POSIX: an absolute b replaces a; otherwise b is
      appended, with a '/' inserted unless a is empty or already ends in one. */
  function JoinPath(a: string, b: string): (r: string)
  {
    if b != [] && b[0] == '/' then b
    else if a == [] || a[|a| - 1] == '/' then a + b
    else a + "/" + b
  }

  /** An absolute b replaces a. A relative b is placed inside a: after a
      alone when a is empty or already ends in '/', and after a and one '/'
      otherwise. */
  lemma JoinPathCases(a: string, b: string)
    ensures b != [] && b[0] == '/' ==> JoinPath(a, b) == b
    ensures (b == [] || b[0] != '/') ==> (JoinPath(a, b) == a + b <==> a == [] || a[|a| - 1] == '/')
    ensures (b == [] || b[0] != '/') ==> (JoinPath(a, b) == a + "/" + b <==> a != [] && a[|a| - 1] != '/')
  {
    assert |a + b| != |a + "/" + b|;
  }

  /** After a '/' (or at the start), a '/'-free tail is the base name. */
  lemma BasenameAfterSlash(a: string, b: string)
    requires a == [] || a[|a| - 1] == '/'
    requires '/' !in b
    ensures Basename(a + b) == b
  {
    var p := a + b;
    forall k | |a| <= k < |p| ensures p[k] != '/' {
      assert p[k] == b[k - |a|];
    }
    assert |a| == 0 || p[|a| - 1] == a[|a| - 1];
    NameStartAt(p, |a|, |p|);
    assert p[|a|..] == b;
  }

  /** Joining a directory with a bare file name keeps that name as the
      basename: the file lands in the directory under its own name. */
  lemma BasenameOfJoin(dir: string, name: string)
    requires name != [] && '/' !in name
    ensures Basename(JoinPath(dir, name)) == name
  {
    if dir == [] || dir[|dir| - 1] == '/' {
      BasenameAfterSlash(dir, name);
    } else {
      assert dir + "/" + name == (dir + "/") + name;
      BasenameAfterSlash(dir + "/", name);
    }
  }
}
