/** The string and path helpers of the Python standard library that the
    system leans on: `str.rfind`, `str.split(c)[-1]`, `os.path.basename`,
    `os.path.splitext`, `os.path.join` (POSIX flavour), ASCII `str.lower`
    and the integer format `{n:0wd}`. */
module Text {

  /** Index of the last occurrence of `c` in `s`, or -1 (Python's `str.rfind`). */
  function RFind(s: string, c: char): (r: int)
    ensures -1 <= r < |s|
    ensures r >= 0 ==> s[r] == c
    ensures forall i :: r < i < |s| ==> s[i] != c
  {
    if s == [] then -1
    else if s[|s| - 1] == c then |s| - 1
    else RFind(s[..|s| - 1], c)
  }

  /** The text after the last `c`; the whole of `s` when `c` does not occur.
      This is `s.split(c)[-1]` and, for `c == '/'`, `os.path.basename(s)`. */
  function AfterLast(s: string, c: char): (r: string)
    ensures c !in r
    ensures |r| <= |s| && r == s[|s| - |r|..]
    ensures |r| < |s| ==> s[|s| - |r| - 1] == c
    ensures c !in s ==> r == s
  {
    s[RFind(s, c) + 1..]
  }

  /** `os.path.basename` on POSIX: the text after the last slash. */
  function Basename(p: string): (r: string)
    ensures '/' !in r
  {
    AfterLast(p, '/')
  }

  predicate AllDots(s: string) {
    forall i :: 0 <= i < |s| ==> s[i] == '.'
  }

  /** Where `os.path.splitext` on POSIX cuts: at the last dot, but only when
      that dot lies in the last path component and that component has a
      character other than a dot before it; otherwise at the end. */
  function ExtStart(p: string): (e: nat)
    ensures e <= |p|
  {
    var sep, dot := RFind(p, '/'), RFind(p, '.');
    if dot > sep && !AllDots(p[sep + 1..dot]) then dot else |p|
  }

  /** `os.path.splitext` on POSIX: `".bashrc"` and `"a/.x"` have no
      extension, `"a.b/c"` has none either. */
  function SplitExt(p: string): (r: (string, string))
    ensures r.0 + r.1 == p
  {
    var e := ExtStart(p);
    assert p[..e] + p[e..] == p;
    (p[..e], p[e..])
  }

  /** The extension is empty or a dot followed by neither a dot nor a slash,
      and the stem's last component is not made of dots alone. */
  lemma SplitExtShape(p: string)
    ensures var r := SplitExt(p);
      && (r.1 == [] || (r.1[0] == '.' && '.' !in r.1[1..] && '/' !in r.1))
      && (r.1 != [] ==> !AllDots(Basename(r.0)))
  {
    var e := ExtStart(p);
    if e < |p| {
      assert p[e..][1..] == p[e + 1..];
      BasenameOfPrefix(p, e);
    }
  }

  /** Cutting `s` after its last `c` keeps that occurrence the last one. */
  lemma RFindPrefix(s: string, c: char, k: nat)
    requires RFind(s, c) < k <= |s|
    ensures RFind(s[..k], c) == RFind(s, c)
  {
    var a, b := RFind(s[..k], c), RFind(s, c);
    assert a >= 0 ==> s[a] == c;
    assert b >= 0 ==> s[..k][b] == c;
  }

  /** The last component of `p[..k]`, when no slash lies at or after `k`, is
      the last component of `p` cut at `k`. */
  lemma BasenameOfPrefix(p: string, k: nat)
    requires k <= |p| && RFind(p, '/') < k
    ensures Basename(p[..k]) == p[RFind(p, '/') + 1..k]
  {
    RFindPrefix(p, '/', k);
    assert Basename(p[..k]) == p[..k][RFind(p, '/') + 1..];
  }

  /** `os.path.join(a, b)` on POSIX: an absolute `b` replaces `a`; otherwise
      a slash goes between them unless `a` is empty or already ends in one. */
  function Join(a: string, b: string): (r: string)
    ensures |b| > 0 && b[0] == '/' ==> r == b
    ensures |r| >= |b|
    ensures !(|b| > 0 && b[0] == '/') ==> r[|r| - |b|..] == b
  {
    if |b| > 0 && b[0] == '/' then b
    else if a == [] || a[|a| - 1] == '/' then a + b
    else a + "/" + b
  }

  /** Joining a directory with a plain file name gives back that file name as
      the basename, whatever the directory. */
  lemma {:induction false} BasenameOfJoin(dir: string, name: string)
    requires '/' !in name
    ensures Basename(Join(dir, name)) == name
  {
    var j := Join(dir, name);
    assert j[|j| - |name|..] == name;
    if |j| > |name| {
      assert j[|j| - |name| - 1] == '/';
    } else {
      assert j == name;
    }
    var r := Basename(j);
    assert r == j[|j| - |r|..];
  }

  // ---------------------------------------------------------------------
  // Decimal formatting

  predicate IsDigit(c: char) {
    '0' <= c <= '9'
  }

  predicate IsDigits(s: string) {
    forall i :: 0 <= i < |s| ==> IsDigit(s[i])
  }

  function DigitChar(d: nat): (c: char)
    requires d < 10
    ensures IsDigit(c) && (c as int) - ('0' as int) == d
  {
    ['0', '1', '2', '3', '4', '5', '6', '7', '8', '9'][d]
  }

  /** The decimal digits of `n` with no leading zero (`str(n)`). */
  function Decimal(n: nat): (r: string)
    ensures |r| >= 1 && IsDigits(r)
    ensures n >= 10 ==> r[0] != '0'
  {
    if n < 10 then [DigitChar(n)] else Decimal(n / 10) + [DigitChar(n % 10)]
  }

  /** The value of a string of decimal digits, leading zeros allowed. */
  function ParseDecimal(s: string): nat
    requires IsDigits(s)
  {
    if s == [] then 0
    else ParseDecimal(s[..|s| - 1]) * 10 + ((s[|s| - 1] as int) - ('0' as int))
  }

  lemma {:induction false} ParseDecimalOfDecimal(n: nat)
    ensures ParseDecimal(Decimal(n)) == n
  {
    if n >= 10 {
      var d := Decimal(n);
      assert d[..|d| - 1] == Decimal(n / 10);
      ParseDecimalOfDecimal(n / 10);
    }
  }

  function Zeros(k: nat): (r: string)
    ensures |r| == k && forall i :: 0 <= i < k ==> r[i] == '0'
  {
    if k == 0 then [] else Zeros(k - 1) + ['0']
  }

  lemma {:induction false} ParseDecimalLeadingZeros(k: nat, s: string)
    requires IsDigits(s)
    ensures IsDigits(Zeros(k) + s) && ParseDecimal(Zeros(k) + s) == ParseDecimal(s)
    decreases |s|
  {
    var z := Zeros(k) + s;
    assert IsDigits(z) by {
      forall i | 0 <= i < |z| ensures IsDigit(z[i]) {
        if i < k { assert z[i] == '0'; } else { assert z[i] == s[i - k]; }
      }
    }
    if s == [] {
      ParseDecimalAllZeros(k);
      assert z == Zeros(k);
    } else {
      var s' := s[..|s| - 1];
      assert z[..|z| - 1] == Zeros(k) + s';
      ParseDecimalLeadingZeros(k, s');
    }
  }

  lemma {:induction false} ParseDecimalAllZeros(k: nat)
    ensures IsDigits(Zeros(k)) && ParseDecimal(Zeros(k)) == 0
  {
    if k > 0 {
      assert Zeros(k)[..k - 1] == Zeros(k - 1);
      ParseDecimalAllZeros(k - 1);
    }
  }

  /** `s` left-padded with zeros to at least `width` characters. */
  function ZeroPad(s: string, width: nat): (r: string)
    ensures |r| == if |s| < width then width else |s|
    ensures r[|r| - |s|..] == s
    ensures forall i :: 0 <= i < |r| - |s| ==> r[i] == '0'
  {
    if |s| < width then Zeros(width - |s|) + s else s
  }

  /** Padding a string of digits with zeros keeps its value. */
  lemma ParseZeroPad(s: string, width: nat)
    requires IsDigits(s)
    ensures IsDigits(ZeroPad(s, width)) && ParseDecimal(ZeroPad(s, width)) == ParseDecimal(s)
  {
    if |s| < width {
      ParseDecimalLeadingZeros(width - |s|, s);
    }
  }

  /** Python's `f"{n:0{width}d}"`: a minus sign for negative `n`, then the
      digits of `|n|` zero-padded so that the whole is at least `width` long. */
  function FormatInt(n: int, width: nat): (r: string)
    ensures |r| >= width && |r| >= 1
    ensures n >= 0 ==> IsDigits(r)
    ensures n < 0 ==> r[0] == '-' && IsDigits(r[1..])
  {
    if n >= 0 then ZeroPad(Decimal(n), width)
    else "-" + ZeroPad(Decimal(-n), if width == 0 then 0 else width - 1)
  }

  /** A formatted number is a sign and digits, so it holds no path separator. */
  lemma FormatIntHasNoSlash(n: int, width: nat)
    ensures '/' !in FormatInt(n, width)
  {
    var r := FormatInt(n, width);
    forall i | 0 <= i < |r| ensures r[i] != '/' {
      if n < 0 && i > 0 {
        assert r[i] == r[1..][i - 1];
      }
    }
  }

  /** Zero padding never changes the value written: `{n:0wd}` reads back as `n`. */
  lemma {:induction false} FormatIntParses(n: nat, width: nat)
    ensures ParseDecimal(FormatInt(n, width)) == n
  {
    ParseDecimalOfDecimal(n);
    ParseZeroPad(Decimal(n), width);
  }

  /** Distinct non-negative numbers format to distinct strings at any width. */
  lemma FormatIntInjective(a: nat, b: nat, width: nat)
    requires FormatInt(a, width) == FormatInt(b, width)
    ensures a == b
  {
    FormatIntParses(a, width);
    FormatIntParses(b, width);
  }

  // ---------------------------------------------------------------------
  // Case

  function LowerChar(c: char): char {
    if 'A' <= c <= 'Z' then (c as int + 32) as char else c
  }

  /** `str.lower` restricted to ASCII letters. */
  function Lower(s: string): (r: string)
    ensures |r| == |s|
    ensures forall i :: 0 <= i < |s| ==> r[i] == LowerChar(s[i])
  {
    if s == [] then [] else Lower(s[..|s| - 1]) + [LowerChar(s[|s| - 1])]
  }

  lemma {:induction false} LowerIdempotent(s: string)
    ensures Lower(Lower(s)) == Lower(s)
  {
    if s != [] {
      var n := |s| - 1;
      LowerIdempotent(s[..n]);
      assert Lower(s)[..n] == Lower(s[..n]);
    }
  }

  /** Lower-casing keeps every slash and dot where it was. */
  lemma {:induction false} RFindLower(s: string, c: char)
    requires c == '/' || c == '.'
    ensures RFind(Lower(s), c) == RFind(s, c)
  {
    var l := Lower(s);
    var a, b := RFind(l, c), RFind(s, c);
    assert a >= 0 ==> s[a] == c by {
      if a >= 0 { assert LowerChar(s[a]) == c; }
    }
    assert b >= 0 ==> l[b] == c;
  }

  lemma {:induction false} LowerSlice(s: string, i: nat, j: nat)
    requires i <= j <= |s|
    ensures Lower(s)[i..j] == Lower(s[i..j])
    decreases j
  {
    if i < j {
      LowerSlice(s, i, j - 1);
      assert s[i..j][..j - i - 1] == s[i..j - 1];
    }
  }

  lemma {:induction false} LowerSuffix(s: string, i: nat)
    requires i <= |s|
    ensures Lower(s)[i..] == Lower(s[i..])
    decreases |s|
  {
    if i < |s| {
      var n := |s| - 1;
      LowerSuffix(s[..n], i);
      assert s[i..][..n - i] == s[..n][i..];
      assert Lower(s)[i..] == Lower(s[..n])[i..] + [LowerChar(s[n])];
    }
  }

  lemma AllDotsLower(s: string)
    ensures AllDots(Lower(s)) == AllDots(s)
  {
    var l := Lower(s);
    if AllDots(l) {
      forall i | 0 <= i < |s| ensures s[i] == '.' {
        assert LowerChar(s[i]) == '.';
      }
    }
  }

  /** Lower-casing moves none of the characters `os.path.splitext` looks at. */
  lemma ExtStartLower(p: string)
    ensures ExtStart(Lower(p)) == ExtStart(p)
  {
    RFindLower(p, '/');
    RFindLower(p, '.');
    var sep, dot := RFind(p, '/'), RFind(p, '.');
    if dot > sep {
      LowerSlice(p, sep + 1, dot);
      AllDotsLower(p[sep + 1..dot]);
    }
  }

  /** `os.path.splitext` commutes with ASCII lower-casing: the extension of a
      lowered name is the lowered extension. */
  lemma SplitExtLower(p: string)
    ensures SplitExt(Lower(p)).1 == Lower(SplitExt(p).1)
  {
    ExtStartLower(p);
    LowerSuffix(p, ExtStart(p));
  }
}
