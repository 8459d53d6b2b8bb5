/** The few PHP built-ins the resume-analysis service leans on, written out as
    functions over strings: string truthiness, the `(string)` cast of an
    integer, `array_filter` without a callback, `implode` and `basename`. */
module Php {

  datatype Option<+T> = None | Some(value: T)

  datatype Result<+T, +E> = Success(value: T) | Failure(error: E)

  /** PHP treats exactly two strings as false: the empty string and "0". */
  predicate IsFalsy(s: string) {
    s == "" || s == "0"
  }

  /** Every piece of `pieces` is truthy. */
  predicate AllTruthy(pieces: seq<string>) {
    forall k :: 0 <= k < |pieces| ==> !IsFalsy(pieces[k])
  }

  // ---------------------------------------------------------------------------
  // Integers as decimal text
  // ---------------------------------------------------------------------------

  predicate IsDigit(c: char) {
    '0' <= c <= '9'
  }

  predicate AllDigits(s: string) {
    forall k :: 0 <= k < |s| ==> IsDigit(s[k])
  }

  function DigitChar(d: nat): (c: char)
    requires d < 10
    ensures IsDigit(c)
    ensures c == '0' <==> d == 0
  {
    ('0' as int + d) as char
  }

  function DigitValue(c: char): (d: nat)
    requires IsDigit(c)
    ensures d < 10 && DigitChar(d) == c
  {
    c as int - '0' as int
  }

  /** Decimal text of a natural number, without leading zeros. */
  function NatToDecimal(n: nat): (s: string)
    ensures |s| > 0 && AllDigits(s)
    ensures s[0] == '0' <==> n == 0
    decreases n
  {
    if n < 10 then [DigitChar(n)] else NatToDecimal(n / 10) + [DigitChar(n % 10)]
  }

  /** PHP's `(string)` cast of an integer: a minus sign exactly for negative
      numbers, then the decimal digits of the magnitude in canonical form (no
      leading zero, so "0" only for zero and never "-0"). */
  function IntToString(n: int): (s: string)
    ensures |s| > 0
    ensures forall k :: 0 < k < |s| ==> IsDigit(s[k])
    ensures IsDigit(s[0]) || s[0] == '-'
    ensures s[0] == '-' <==> n < 0
    ensures s[0] == '0' <==> n == 0
    ensures n == 0 ==> s == "0"
    ensures n < 0 ==> |s| > 1 && s[1] != '0'
  {
    if n < 0 then "-" + NatToDecimal(-n) else NatToDecimal(n)
  }

  /** The number that a string of decimal digits denotes (the reference
      reading of decimal text, independent of how it was produced). */
  ghost function DigitsValue(s: string): nat
    requires AllDigits(s)
  {
    if s == [] then 0 else DigitsValue(s[..|s| - 1]) * 10 + DigitValue(s[|s| - 1])
  }

  /** The integer that decimal text with an optional leading minus denotes. */
  ghost function DecimalValue(s: string): Option<int> {
    if |s| > 0 && s[0] == '-' && |s| > 1 && AllDigits(s[1..]) then Some(-(DigitsValue(s[1..]) as int))
    else if |s| > 0 && AllDigits(s) then Some(DigitsValue(s))
    else None
  }

  lemma {:induction false} NatToDecimalValue(n: nat)
    ensures DigitsValue(NatToDecimal(n)) == n
    decreases n
  {
    var s := NatToDecimal(n);
    if n >= 10 {
      NatToDecimalValue(n / 10);
      assert s[..|s| - 1] == NatToDecimal(n / 10);
    }
  }

  /** The cast is faithful: the text it produces denotes the integer cast. */
  lemma IntToStringValue(n: int)
    ensures DecimalValue(IntToString(n)) == Some(n)
  {
    if n < 0 {
      NatToDecimalValue(-n);
      assert IntToString(n)[1..] == NatToDecimal(-n);
    } else {
      NatToDecimalValue(n);
    }
  }

  /** The only integer whose decimal text is falsy is 0 (its text is "0"). */
  lemma IntToStringFalsy(n: int)
    ensures IsFalsy(IntToString(n)) <==> n == 0
  {
    var s := IntToString(n);
    if n < 0 {
      assert s[0] == '-';
    } else if n > 0 {
      assert s[0] != '0';
    }
  }

  // ---------------------------------------------------------------------------
  // array_filter and implode
  // ---------------------------------------------------------------------------

  /** `array_filter($pieces)` with no callback, read in iteration order: the
      truthy pieces, in their original order. */
  function ArrayFilter(pieces: seq<string>): (r: seq<string>)
    ensures AllTruthy(r)
    ensures |r| <= |pieces|
    ensures forall s :: s in r <==> s in pieces && !IsFalsy(s)
  {
    if pieces == [] then []
    else if IsFalsy(pieces[0]) then ArrayFilter(pieces[1..])
    else [pieces[0]] + ArrayFilter(pieces[1..])
  }

  /** `implode($glue, $pieces)`. */
  function Implode(glue: string, pieces: seq<string>): string {
    if |pieces| == 0 then ""
    else if |pieces| == 1 then pieces[0]
    else pieces[0] + glue + Implode(glue, pieces[1..])
  }

  /** Filtering distributes over concatenation and keeps the order. */
  lemma {:induction false} ArrayFilterAppend(a: seq<string>, b: seq<string>)
    ensures ArrayFilter(a + b) == ArrayFilter(a) + ArrayFilter(b)
  {
    if a != [] {
      assert (a + b)[0] == a[0];
      assert (a + b)[1..] == a[1..] + b;
      ArrayFilterAppend(a[1..], b);
    } else {
      assert a + b == b;
    }
  }

  /** Imploding pieces that are all non-empty yields "" only for no pieces. */
  lemma {:induction false} ImplodeEmpty(glue: string, pieces: seq<string>)
    requires forall k :: 0 <= k < |pieces| ==> pieces[k] != ""
    ensures Implode(glue, pieces) == "" <==> pieces == []
  {
    if |pieces| > 1 {
      assert |Implode(glue, pieces)| >= |pieces[0]|;
    }
  }

  /** Imploding truthy pieces never yields "0": the result is either empty
      (no pieces) or truthy. */
  lemma ImplodeTruthy(glue: string, pieces: seq<string>)
    requires |glue| > 0
    requires AllTruthy(pieces)
    ensures IsFalsy(Implode(glue, pieces)) <==> pieces == []
  {
    if |pieces| > 0 {
      assert !IsFalsy(pieces[0]);
    }
    if |pieces| > 1 {
      assert |Implode(glue, pieces)| >= |pieces[0]| + |glue| >= 2;
    }
  }

  /** How the implosion of two non-empty-piece lists combines. */
  function JoinTwo(glue: string, x: string, y: string): string {
    if x == "" then y else if y == "" then x else x + glue + y
  }

  lemma {:induction false} ImplodeAppend(glue: string, a: seq<string>, b: seq<string>)
    requires forall k :: 0 <= k < |a| ==> a[k] != ""
    requires forall k :: 0 <= k < |b| ==> b[k] != ""
    ensures Implode(glue, a + b) == JoinTwo(glue, Implode(glue, a), Implode(glue, b))
    decreases |a|
  {
    ImplodeEmpty(glue, b);
    if |a| == 0 {
      assert a + b == b;
    } else if |a| == 1 {
      if b != [] {
        assert (a + b)[1..] == b;
      }
    } else {
      assert (a + b)[1..] == a[1..] + b;
      ImplodeAppend(glue, a[1..], b);
      ImplodeEmpty(glue, a[1..]);
    }
  }

  // ---------------------------------------------------------------------------
  // basename
  // ---------------------------------------------------------------------------

  /** `path` with every trailing '/' removed. */
  function StripTrailingSlashes(path: string): (r: string)
    ensures r <= path
    ensures r == [] || r[|r| - 1] != '/'
    ensures forall k :: |r| <= k < |path| ==> path[k] == '/'
  {
    if path != [] && path[|path| - 1] == '/' then StripTrailingSlashes(path[..|path| - 1])
    else path
  }

  /** The part of `path` after its last '/' (all of it when it has none). */
  function AfterLastSlash(path: string): (r: string)
    ensures '/' !in r
    ensures |r| <= |path| && r == path[|path| - |r|..]
    ensures |r| < |path| ==> path[|path| - |r| - 1] == '/'
  {
    if path == [] then []
    else if path[|path| - 1] == '/' then []
    else AfterLastSlash(path[..|path| - 1]) + [path[|path| - 1]]
  }

  /** PHP's `basename($path)` on a POSIX host: trailing slashes are dropped,
      then the last '/'-separated component is taken. */
  function Basename(path: string): (r: string)
    ensures '/' !in r
    ensures |r| <= |path|
  {
    AfterLastSlash(StripTrailingSlashes(path))
  }

  /** The basename is a slash-free piece of the path that is followed only by
      slashes and preceded by a slash or the start of the path; it is empty
      exactly when the path is made of slashes alone. */
  lemma BasenameShape(path: string)
    ensures '/' !in Basename(path)
    ensures exists i, j :: (0 <= i <= j <= |path| && Basename(path) == path[i..j]
      && (i == 0 || path[i - 1] == '/')
      && (forall k :: j <= k < |path| ==> path[k] == '/'))
    ensures Basename(path) == "" <==> forall k :: 0 <= k < |path| ==> path[k] == '/'
  {
    var s := StripTrailingSlashes(path);
    var b := Basename(path);
    var i, j := |s| - |b|, |s|;
    assert s == path[..j];
    assert b == path[i..j];
  }

  /** The part after the last slash of `dir/name` is `name` when `name` has no slash. */
  lemma {:induction false} AfterLastSlashOfJoin(dir: string, name: string)
    requires '/' !in name
    ensures AfterLastSlash(dir + "/" + name) == name
    decreases |name|
  {
    var p := dir + "/" + name;
    if name != [] {
      assert p[..|p| - 1] == dir + "/" + name[..|name| - 1];
      assert name[|name| - 1] in name;
      AfterLastSlashOfJoin(dir, name[..|name| - 1]);
      assert name == name[..|name| - 1] + [name[|name| - 1]];
    }
  }

  /** A slash-free string is its own last component. */
  lemma {:induction false} AfterLastSlashNoSlash(s: string)
    requires '/' !in s
    ensures AfterLastSlash(s) == s
  {
    if s != [] {
      assert s[|s| - 1] in s;
      assert forall c :: c in s[..|s| - 1] ==> c in s;
      AfterLastSlashNoSlash(s[..|s| - 1]);
      assert s == s[..|s| - 1] + [s[|s| - 1]];
    }
  }

  /** The basename of `dir/name` is `name`, for a non-empty slash-free name,
      whatever the directory part is and however many slashes follow. */
  lemma BasenameOfJoin(dir: string, name: string, trailing: nat)
    requires name != [] && '/' !in name
    ensures Basename(dir + "/" + name + Slashes(trailing)) == name
  {
    var p := dir + "/" + name;
    assert p[|p| - 1] == name[|name| - 1];
    assert name[|name| - 1] in name;
    StripSlashes(p, trailing);
    AfterLastSlashOfJoin(dir, name);
  }

  function Slashes(n: nat): (r: string)
    ensures |r| == n && forall k :: 0 <= k < n ==> r[k] == '/'
  {
    if n == 0 then "" else Slashes(n - 1) + "/"
  }

  lemma {:induction false} StripSlashes(p: string, n: nat)
    requires p == [] || p[|p| - 1] != '/'
    ensures StripTrailingSlashes(p + Slashes(n)) == p
  {
    if n > 0 {
      assert (p + Slashes(n))[..|p| + n - 1] == p + Slashes(n - 1);
      StripSlashes(p, n - 1);
    } else {
      assert p + Slashes(n) == p;
    }
  }

  /** Taking the basename twice changes nothing. */
  lemma BasenameIdempotent(path: string)
    ensures Basename(Basename(path)) == Basename(path)
  {
    var b := Basename(path);
    if b != [] {
      assert b[|b| - 1] in b;
      assert StripTrailingSlashes(b) == b;
    }
    AfterLastSlashNoSlash(b);
  }
}
