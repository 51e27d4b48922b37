/**
 * The pieces of the Java platform the zoo program relies on, restricted to the way it uses them:
 * String.split with a literal separator, String.trim, ASCII case mapping, Integer.parseInt,
 * decimal rendering of an int, zero-padded formatting and 32-bit int arithmetic.
 */
module JavaLang {
  import opened Wrappers

  const IntMin: int := -0x8000_0000
  const IntMax: int := 0x7FFF_FFFF

  /** A value that fits a Java int. */
  predicate IsInt32(n: int) {
    IntMin <= n <= IntMax
  }

  /** Java int arithmetic: the mathematical result reduced modulo 2^32 into the int range. */
  function Wrap32(n: int): (r: int)
    ensures IsInt32(r)
    ensures IsInt32(n) ==> r == n
    ensures IntMax < n <= IntMax + 0x1_0000_0000 ==> r == n - 0x1_0000_0000
    ensures IntMin - 0x1_0000_0000 <= n < IntMin ==> r == n + 0x1_0000_0000
  {
    (n - IntMin) % 0x1_0000_0000 + IntMin
  }

  // ---------------------------------------------------------------------------------------------
  // String.split

  /** sep occurs in s starting at index i. */
  predicate MatchAt(s: string, sep: string, i: int) {
    0 <= i && i + |sep| <= |s| && s[i..i + |sep|] == sep
  }

  lemma MatchShift(s: string, sep: string)
    requires s != []
    ensures forall j :: 1 <= j ==> (MatchAt(s, sep, j) <==> MatchAt(s[1..], sep, j - 1))
  {
    forall j | 1 <= j
      ensures MatchAt(s, sep, j) <==> MatchAt(s[1..], sep, j - 1)
    {
      if j + |sep| <= |s| {
        assert s[j..j + |sep|] == s[1..][j - 1..j - 1 + |sep|];
      }
    }
  }

  /** The leftmost occurrence of sep in s: the next match a left-to-right split consumes. */
  function Find(s: string, sep: string): (r: Option<nat>)
    requires sep != []
    ensures r.Some? ==> MatchAt(s, sep, r.value)
    ensures r.Some? ==> forall j :: 0 <= j < r.value ==> !MatchAt(s, sep, j)
    ensures r.None? ==> forall j :: 0 <= j ==> !MatchAt(s, sep, j)
    decreases |s|
  {
    if |s| < |sep| then None
    else if s[..|sep|] == sep then Some(0)
    else
      MatchShift(s, sep);
      match Find(s[1..], sep)
      case None => None
      case Some(i) => Some(i + 1)
  }

  /** The text between successive leftmost non-overlapping occurrences of sep, empty pieces kept. */
  function Pieces(s: string, sep: string): (r: seq<string>)
    requires sep != []
    ensures |r| >= 1
    decreases |s|
  {
    match Find(s, sep)
    case None => [s]
    case Some(i) => [s[..i]] + Pieces(s[i + |sep|..], sep)
  }

  /** The pieces xs with sep between each two of them. */
  function Join(xs: seq<string>, sep: string): string
    requires |xs| >= 1
  {
    if |xs| == 1 then xs[0] else xs[0] + sep + Join(xs[1..], sep)
  }

  /** xs without its trailing run of empty strings. */
  function DropTrailingEmpty(xs: seq<string>): (r: seq<string>)
    ensures r <= xs
    ensures r == [] || r[|r| - 1] != []
    ensures forall i :: |r| <= i < |xs| ==> xs[i] == []
  {
    if xs == [] || xs[|xs| - 1] != [] then xs else DropTrailingEmpty(xs[..|xs| - 1])
  }

  /**
   * String.split(sep) (limit 0) for a separator with no regular-expression metacharacters:
   * an empty string gives one empty piece; otherwise the pieces between matches, with trailing
   * empty pieces removed (so a string made only of separators gives no pieces at all).
   */
  function Split(s: string, sep: string): seq<string>
    requires sep != []
  {
    if s == [] then [[]] else DropTrailingEmpty(Pieces(s, sep))
  }

  /** A piece with no character equal to the separator's first one cannot hold a match. */
  lemma FindAfter(x: string, t: string, sep: string)
    requires sep != [] && sep[0] !in x
    ensures t == [] ==> Find(x + t, sep) == None
    ensures |sep| <= |t| && t[..|sep|] == sep ==> Find(x + t, sep) == Some(|x|)
  {
    NoMatchIn(x, t, sep);
    if t == [] {
      assert x + t == x;
      FindNone(x + t, sep);
    } else if |sep| <= |t| && t[..|sep|] == sep {
      MatchAfter(x, t, sep);
      FindFirst(x + t, sep, |x|);
    }
  }

  /** A separator that starts t matches right after x. */
  lemma MatchAfter(x: string, t: string, sep: string)
    requires |sep| <= |t| && t[..|sep|] == sep
    ensures MatchAt(x + t, sep, |x|)
  {
    assert (x + t)[|x|..|x| + |sep|] == t[..|sep|];
  }

  /** With no match anywhere, there is none to find. */
  lemma FindNone(s: string, sep: string)
    requires sep != [] && forall j :: 0 <= j < |s| ==> !MatchAt(s, sep, j)
    ensures Find(s, sep) == None
  {
  }

  /** A match with none before it is the one found. */
  lemma FindFirst(s: string, sep: string, k: nat)
    requires sep != [] && MatchAt(s, sep, k) && forall j :: 0 <= j < k ==> !MatchAt(s, sep, j)
    ensures Find(s, sep) == Some(k)
  {
  }

  lemma NoMatchIn(x: string, t: string, sep: string)
    requires sep != [] && sep[0] !in x
    ensures forall j :: 0 <= j < |x| ==> !MatchAt(x + t, sep, j)
  {
    var s := x + t;
    forall j | 0 <= j < |x|
      ensures !MatchAt(s, sep, j)
    {
      if j + |sep| <= |s| {
        assert s[j..j + |sep|][0] == s[j] == x[j];
      }
    }
  }

  /** Joining the pieces gives back the string. */
  lemma {:induction false} JoinPieces(s: string, sep: string)
    requires sep != []
    ensures Join(Pieces(s, sep), sep) == s
    decreases |s|
  {
    match Find(s, sep)
    case None =>
    case Some(i) =>
      var rest := s[i + |sep|..];
      var ps := Pieces(rest, sep);
      JoinPieces(rest, sep);
      var all := [s[..i]] + ps;
      assert Pieces(s, sep) == all;
      assert |all| > 1 && all[0] == s[..i] && all[1..] == ps;
      assert Join(all, sep) == s[..i] + sep + Join(ps, sep);
      assert s == s[..i] + sep + rest by {
        assert s[i..i + |sep|] == sep;
      }
  }

  /** A string without the separator's first character is a single piece. */
  lemma PiecesSingle(x: string, sep: string)
    requires sep != [] && sep[0] !in x
    ensures Pieces(x, sep) == [x]
  {
    FindAfter(x, [], sep);
    assert x + [] == x;
  }

  /** A piece without the separator's first character, then the separator: that piece comes first. */
  lemma PiecesCons(x: string, t: string, sep: string)
    requires sep != [] && sep[0] !in x
    ensures Pieces(x + sep + t, sep) == [x] + Pieces(t, sep)
  {
    var s := x + sep + t;
    assert Find(s, sep) == Some(|x|) by {
      FindAfter(x, sep + t, sep);
      assert (sep + t)[..|sep|] == sep;
      assert s == x + (sep + t);
    }
    assert s[..|x|] == x;
    assert s[|x| + |sep|..] == t;
  }

  /** Splitting a joined sequence gives back its pieces when no piece can hold a separator. */
  lemma {:induction false} PiecesJoin(xs: seq<string>, sep: string)
    requires |xs| >= 1 && sep != []
    requires forall k :: 0 <= k < |xs| ==> sep[0] !in xs[k]
    ensures Pieces(Join(xs, sep), sep) == xs
  {
    if |xs| == 1 {
      PiecesSingle(xs[0], sep);
    } else {
      var rest := xs[1..];
      forall k | 0 <= k < |rest|
        ensures sep[0] !in rest[k]
      {
        assert rest[k] == xs[k + 1];
      }
      PiecesJoin(rest, sep);
      assert sep[0] !in xs[0];
      PiecesCons(xs[0], Join(rest, sep), sep);
      assert Join(xs, sep) == xs[0] + sep + Join(rest, sep);
      assert [xs[0]] + rest == xs;
    }
  }

  /** String.split undoes the joining when no piece holds a separator and the last piece is not empty. */
  lemma SplitJoin(xs: seq<string>, sep: string)
    requires |xs| >= 1 && sep != []
    requires forall k :: 0 <= k < |xs| ==> sep[0] !in xs[k]
    requires xs[|xs| - 1] != []
    ensures Split(Join(xs, sep), sep) == xs
  {
    PiecesJoin(xs, sep);
    if Join(xs, sep) == [] {
      assert Pieces([], sep) == [[]];
    }
  }

  /** The first piece of x followed by nothing or by a separator is x, provided x is not empty. */
  lemma SplitHead(x: string, t: string, sep: string)
    requires sep != [] && sep[0] !in x && x != []
    requires t == [] || (|sep| <= |t| && t[..|sep|] == sep)
    ensures |Split(x + t, sep)| >= 1 && Split(x + t, sep)[0] == x
  {
    FindAfter(x, t, sep);
    var s := x + t;
    assert s[..|x|] == x;
    var ps := Pieces(s, sep);
    assert ps[0] == x;
    var r := DropTrailingEmpty(ps);
    assert ps[0] != [];
  }

  /** A string with no occurrence of the separator's first character splits into at most one piece. */
  lemma SplitNoSeparator(s: string, sep: string)
    requires sep != [] && sep[0] !in s
    ensures |Split(s, sep)| <= 1
  {
    FindAfter(s, [], sep);
    assert s + [] == s;
  }

  // ---------------------------------------------------------------------------------------------
  // String.trim

  /** The first index at or after i whose character is above U+0020, or |s|: trim's forward scan. */
  function TrimFirst(s: string, i: nat): (k: nat)
    requires i <= |s|
    ensures i <= k <= |s| && (k == |s| || s[k] > ' ')
    ensures forall j :: i <= j < k ==> s[j] <= ' '
    decreases |s| - i
  {
    if i < |s| && s[i] <= ' ' then TrimFirst(s, i + 1) else i
  }

  /** The end, at most e and at least lo, after dropping the characters at or below U+0020 before e: trim's backward scan. */
  function TrimLast(s: string, lo: nat, e: nat): (k: nat)
    requires lo <= e <= |s|
    ensures lo <= k <= e && (k == lo || s[k - 1] > ' ')
    ensures forall j :: k <= j < e ==> s[j] <= ' '
    decreases e
  {
    if lo < e && s[e - 1] <= ' ' then TrimLast(s, lo, e - 1) else e
  }

  /**
   * String.trim: the part of s between its leading and its trailing characters at or below
   * U+0020. The result is empty or starts and ends with a character above U+0020, and only such
   * blank characters are dropped.
   */
  function Trim(s: string): (r: string)
    ensures r == [] || (r[0] > ' ' && r[|r| - 1] > ' ')
    ensures var k := TrimFirst(s, 0);
      && k + |r| <= |s| && s[k..k + |r|] == r
      && (forall i :: 0 <= i < k ==> s[i] <= ' ')
      && (forall i :: k + |r| <= i < |s| ==> s[i] <= ' ')
  {
    var k := TrimFirst(s, 0);
    var e := TrimLast(s, k, |s|);
    assert s[k..e] == s[k..k + |s[k..e]|];
    s[k..e]
  }

  // ---------------------------------------------------------------------------------------------
  // Case mapping (ASCII letters only)

  function UpperChar(c: char): char {
    if 'a' <= c <= 'z' then (c as int - 32) as char else c
  }

  function LowerChar(c: char): char {
    if 'A' <= c <= 'Z' then (c as int + 32) as char else c
  }

  /** String.toUpperCase on ASCII letters. */
  function Upper(s: string): string {
    seq(|s|, i requires 0 <= i < |s| => UpperChar(s[i]))
  }

  /** String.toLowerCase on ASCII letters. */
  function Lower(s: string): string {
    seq(|s|, i requires 0 <= i < |s| => LowerChar(s[i]))
  }

  /** Upper-casing first does not change the lower-case form: case-insensitive comparison ignores it. */
  lemma LowerOfUpper(s: string)
    ensures Lower(Upper(s)) == Lower(s)
  {
    forall i | 0 <= i < |s|
      ensures LowerChar(UpperChar(s[i])) == LowerChar(s[i])
    {
    }
  }

  // ---------------------------------------------------------------------------------------------
  // Decimal digits

  predicate IsDigit(c: char) {
    '0' <= c <= '9'
  }

  predicate AllDigits(s: string) {
    forall i :: 0 <= i < |s| ==> IsDigit(s[i])
  }

  function DigitChar(d: nat): (c: char)
    requires d < 10
    ensures IsDigit(c)
  {
    ('0' as int + d) as char
  }

  function DigitValue(c: char): nat
    requires IsDigit(c)
  {
    c as int - '0' as int
  }

  /** The number a string of decimal digits denotes (the empty string denotes 0). */
  function DigitsValue(s: string): nat
    requires AllDigits(s)
  {
    if s == [] then 0 else DigitsValue(s[..|s| - 1]) * 10 + DigitValue(s[|s| - 1])
  }

  /** Shortest decimal rendering of a natural number. */
  function NatToString(n: nat): string
    decreases n
  {
    if n < 10 then [DigitChar(n)] else NatToString(n / 10) + [DigitChar(n % 10)]
  }

  /** The rendering is digits without a leading zero that read back as n, one digit per power of ten. */
  lemma {:induction false} NatToStringSpec(n: nat)
    ensures var r := NatToString(n);
      && r != [] && AllDigits(r) && DigitsValue(r) == n
      && (|r| > 1 ==> r[0] != '0')
      && (|r| == 1 <==> n < 10)
      && (n < 100 ==> |r| <= 2)
      && (n < 1000 ==> |r| <= 3)
      && (n < 10000 ==> |r| <= 4)
    decreases n
  {
    if n >= 10 {
      var q := n / 10;
      assert q * 10 + n % 10 == n;
      assert n < 100 ==> q < 10;
      assert n < 1000 ==> q < 100;
      assert n < 10000 ==> q < 1000;
      NatToStringSpec(q);
      var prefix := NatToString(q);
      var r := prefix + [DigitChar(n % 10)];
      assert NatToString(n) == r;
      assert |r| == |prefix| + 1 && r[0] == prefix[0];
      assert |prefix| == 1 ==> prefix[0] != '0';
      assert r[..|r| - 1] == prefix;
    }
  }

  /** Integer.toString, which is also what string concatenation of an int produces: digits after an optional minus sign. */
  function IntToString(n: int): string {
    if n < 0 then "-" + NatToString(-n) else NatToString(n)
  }

  /** A rendered int is a digit or a minus sign, then digits only. */
  lemma IntToStringSpec(n: int)
    ensures var r := IntToString(n);
      r != [] && (IsDigit(r[0]) || r[0] == '-') && AllDigits(r[1..])
  {
    var r := IntToString(n);
    if n < 0 {
      NatToStringSpec(-n);
      assert r[1..] == NatToString(-n);
    } else {
      NatToStringSpec(n);
    }
  }

  /** Different numbers are written differently. */
  lemma IntToStringInjective(m: int, n: int)
    requires IntToString(m) == IntToString(n)
    ensures m == n
  {
    var s := IntToString(m);
    NatToStringSpec(if m < 0 then -m else m);
    NatToStringSpec(if n < 0 then -n else n);
    if m < 0 && n < 0 {
      assert s[1..] == NatToString(-m);
      assert s[1..] == NatToString(-n);
    } else if m >= 0 && n >= 0 {
      assert DigitsValue(s) == m;
    }
  }

  /** Leading zeros do not change the value of a digit string. */
  lemma {:induction false} LeadingZeros(z: string, s: string)
    requires AllDigits(s) && forall i :: 0 <= i < |z| ==> z[i] == '0'
    ensures AllDigits(z + s) && DigitsValue(z + s) == DigitsValue(s)
    decreases |s|
  {
    if s == [] {
      assert z + s == z;
      ZerosValue(z);
    } else {
      var init := s[..|s| - 1];
      LeadingZeros(z, init);
      assert (z + s)[..|z + s| - 1] == z + init;
    }
  }

  lemma {:induction false} ZerosValue(z: string)
    requires forall i :: 0 <= i < |z| ==> z[i] == '0'
    ensures AllDigits(z) && DigitsValue(z) == 0
  {
    if z != [] {
      ZerosValue(z[..|z| - 1]);
    }
  }

  /** The string of k zero characters. */
  function Zeros(k: nat): (z: string)
    ensures |z| == k && forall i :: 0 <= i < k ==> z[i] == '0'
  {
    seq(k, i => '0')
  }

  /** The decimal digits of n, padded on the left with zeros to at least width characters. */
  function ZeroPad(n: nat, width: nat): string {
    var digits := NatToString(n);
    Zeros(if |digits| < width then width - |digits| else 0) + digits
  }

  /** The padded string is width characters long unless n needs more, and reads back as n. */
  lemma ZeroPadSpec(n: nat, width: nat)
    ensures var r := ZeroPad(n, width);
      && |r| == (if |NatToString(n)| < width then width else |NatToString(n)|)
      && AllDigits(r) && DigitsValue(r) == n
  {
    var digits := NatToString(n);
    NatToStringSpec(n);
    LeadingZeros(Zeros(if |digits| < width then width - |digits| else 0), digits);
  }

  /** String.format("%02d", n): at least two digits, zero padded; a negative value keeps its sign unpadded. */
  function Format02d(n: int): string {
    if n < 0 then IntToString(n) else ZeroPad(n, 2)
  }

  /** "%02d" of a count from 0 on is at least two digits that read back as it, exactly two below 100. */
  lemma Format02dSpec(n: int)
    ensures var r := Format02d(n);
      && (n >= 0 ==> |r| >= 2 && AllDigits(r) && DigitsValue(r) == n)
      && (0 <= n <= 99 ==> |r| == 2)
      && (n < 0 ==> r == IntToString(n))
  {
    if n >= 0 {
      ZeroPadSpec(n, 2);
    }
  }

  // ---------------------------------------------------------------------------------------------
  // Integer.parseInt

  /**
   * Integer.parseInt(s): an optional '-' or '+' followed by at least one decimal digit, whose
   * value fits an int; anything else is a NumberFormatException, modelled as None.
   */
  function ParseInt(s: string): (r: Option<int>)
    ensures r.Some? ==> IsInt32(r.value)
    ensures r.Some? ==> s != [] && (IsDigit(s[0]) || (|s| >= 2 && (s[0] == '-' || s[0] == '+')))
    ensures r.Some? ==> AllDigits(s[1..])
  {
    if s == [] then None
    else
      var digits := if s[0] == '-' || s[0] == '+' then s[1..] else s;
      if digits == [] || !AllDigits(digits) then None
      else
        var v: int := if s[0] == '-' then -(DigitsValue(digits) as int) else DigitsValue(digits);
        if IsInt32(v) then Some(v) else None
  }

  /** Parsing a rendered int gives the int back. */
  lemma ParseIntToString(n: int)
    requires IsInt32(n)
    ensures ParseInt(IntToString(n)) == Some(n)
  {
    var r := IntToString(n);
    if n < 0 {
      NatToStringSpec(-n);
      assert r[1..] == NatToString(-n);
    } else {
      NatToStringSpec(n);
      assert r[0] != '-' && r[0] != '+';
    }
  }
}
