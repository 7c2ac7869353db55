/** The pieces of java.lang.String and java.lang.Integer that the high-score
    text format relies on, with Java's semantics written out over `string`
    (a sequence of `char`). */
module JavaText {

  datatype Option<+T> = None | Some(value: T)

  const MIN_INT: int := -0x8000_0000
  const MAX_INT: int := 0x7FFF_FFFF
  const TWO_TO_32: int := 0x1_0000_0000

  predicate IsInt32(n: int) { MIN_INT <= n <= MAX_INT }

  /** The `(int)` cast of a `long`: keep the low 32 bits, read them as a
      two's-complement number. */
  function ToInt32(n: int): (r: int)
    ensures IsInt32(r)
    ensures (n - r) % TWO_TO_32 == 0
    ensures IsInt32(n) ==> r == n
  {
    var low := n % TWO_TO_32;
    if low <= MAX_INT then low else low - TWO_TO_32
  }

  // ---------------------------------------------------------------------
  // Occurrences of a literal separator, scanned from the left
  // ---------------------------------------------------------------------

  /** The pieces of `s` between the leftmost non-overlapping occurrences of
      `sep`, found scanning left to right (what a regex matcher's `find`
      loop yields for a pattern without metacharacters, and what
      `String.replace` walks over). */
  function Pieces(s: string, sep: string): (r: seq<string>)
    requires |sep| > 0
    ensures |r| >= 1
    decreases |s|
  {
    if |s| < |sep| then [s]
    else if s[..|sep|] == sep then [""] + Pieces(s[|sep|..], sep)
    else
      var rest := Pieces(s[1..], sep);
      [[s[0]] + rest[0]] + rest[1..]
  }

  /** The pieces glued back together with `glue` between each two. */
  function Join(parts: seq<string>, glue: string): string
  {
    if parts == [] then ""
    else if |parts| == 1 then parts[0]
    else parts[0] + glue + Join(parts[1..], glue)
  }

  /** Cutting at every occurrence and gluing with the separator gives the
      string back. */
  lemma {:induction false} JoinPieces(s: string, sep: string)
    requires |sep| > 0
    ensures Join(Pieces(s, sep), sep) == s
    decreases |s|
  {
    if |s| < |sep| {
    } else if s[..|sep|] == sep {
      JoinPieces(s[|sep|..], sep);
      JoinAfterSeparator(s, sep);
    } else {
      JoinPieces(s[1..], sep);
      JoinAfterChar(s, sep);
    }
  }

  /** The step of `JoinPieces` for a string that starts with the
      separator. */
  lemma JoinAfterSeparator(s: string, sep: string)
    requires 0 < |sep| <= |s| && s[..|sep|] == sep
    requires Join(Pieces(s[|sep|..], sep), sep) == s[|sep|..]
    ensures Join(Pieces(s, sep), sep) == s
  {
    var rest := Pieces(s[|sep|..], sep);
    assert Pieces(s, sep) == [""] + rest;
    assert Join([""] + rest, sep) == "" + sep + Join(rest, sep);
    assert "" + sep == sep;
    PrefixSuffix(s, |sep|);
  }

  /** The step of `JoinPieces` for a string that does not start with the
      separator. */
  lemma JoinAfterChar(s: string, sep: string)
    requires 0 < |sep| <= |s| && s[..|sep|] != sep
    requires Join(Pieces(s[1..], sep), sep) == s[1..]
    ensures Join(Pieces(s, sep), sep) == s
  {
    var rest := Pieces(s[1..], sep);
    var first := [s[0]] + rest[0];
    if |rest| == 1 {
      assert Pieces(s, sep) == [first];
      assert rest[0] == s[1..];
    } else {
      var pieces, tail := [first] + rest[1..], Join(rest[1..], sep);
      assert Pieces(s, sep) == pieces;
      assert Join(rest, sep) == rest[0] + sep + tail;
      assert pieces[1..] == rest[1..];
      assert Join(pieces, sep) == first + sep + tail;
      ConcatRegroup([s[0]], rest[0], sep, tail);
    }
    HeadTail(s);
  }

  lemma PrefixSuffix<T>(s: seq<T>, n: nat)
    requires n <= |s|
    ensures s[..n] + s[n..] == s
  {
  }

  lemma AppendAssoc<T>(a: seq<T>, b: seq<T>, c: seq<T>)
    ensures (a + b) + c == a + (b + c)
  {
  }

  lemma HeadTail<T>(s: seq<T>)
    requires s != []
    ensures [s[0]] + s[1..] == s
  {
  }

  lemma ConcatRegroup<T>(a: seq<T>, b: seq<T>, c: seq<T>, d: seq<T>)
    ensures (a + b) + c + d == a + (b + c + d)
  {
  }

  /** When the character `sep[j]` occurs neither in `a` nor earlier in
      `sep`, the first occurrence of `sep` in `a + sep + b` is the one right
      after `a`. */
  lemma {:induction false} PiecesAfter(a: string, sep: string, b: string, j: nat)
    requires j < |sep|
    requires sep[j] !in a && sep[j] !in sep[..j]
    ensures Pieces(a + sep + b, sep) == [a] + Pieces(b, sep)
    decreases |a|
  {
    var s := a + sep + b;
    if a == [] {
      assert s == sep + b;
      assert s[..|sep|] == sep;
      assert s[|sep|..] == b;
    } else {
      assert s[j] != sep[j] by {
        if j < |a| {
          assert s[j] == a[j];
        } else {
          assert s[j] == sep[j - |a|];
          assert sep[j - |a|] in sep[..j];
        }
      }
      assert s[..|sep|] != sep;
      assert s[1..] == a[1..] + sep + b;
      PiecesAfter(a[1..], sep, b, j);
      assert [a[0]] + a[1..] == a;
    }
  }

  /** A string that lacks one character of the separator is a single piece. */
  lemma {:induction false} PiecesNone(b: string, sep: string, j: nat)
    requires j < |sep|
    requires sep[j] !in b
    ensures Pieces(b, sep) == [b]
    decreases |b|
  {
    if |b| >= |sep| {
      assert b[j] != sep[j];
      assert b[..|sep|] != sep;
      PiecesNone(b[1..], sep, j);
      assert [b[0]] + b[1..] == b;
    }
  }

  // ---------------------------------------------------------------------
  // String.split, String.replace, String.trim
  // ---------------------------------------------------------------------

  /** Drops the empty strings at the end, as `split` with limit 0 does. */
  function DropTrailingEmpty(parts: seq<string>): (r: seq<string>)
    ensures r <= parts
    ensures r == [] || r[|r| - 1] != ""
    ensures forall i :: |r| <= i < |parts| ==> parts[i] == ""
  {
    if parts == [] || parts[|parts| - 1] != "" then parts
    else DropTrailingEmpty(parts[..|parts| - 1])
  }

  /** `s.split(sep)` for a separator without regex metacharacters: the whole
      string when there is no match, otherwise the pieces less the trailing
      empty ones. */
  function Split(s: string, sep: string): (r: seq<string>)
    requires |sep| > 0
  {
    var parts := Pieces(s, sep);
    if |parts| == 1 then [s] else DropTrailingEmpty(parts)
  }

  /** `s.replace(target, replacement)`: every leftmost non-overlapping
      occurrence of `target` replaced. */
  function Replace(s: string, target: string, replacement: string): string
    requires |target| > 0
  {
    Join(Pieces(s, target), replacement)
  }

  /** A split that drops no trailing piece loses nothing: gluing its parts
      back with the separator gives the string. */
  lemma SplitRejoins(s: string, sep: string)
    requires |sep| > 0
    requires var parts := Pieces(s, sep); parts[|parts| - 1] != ""
    ensures Split(s, sep) == Pieces(s, sep)
    ensures Join(Split(s, sep), sep) == s
  {
    JoinPieces(s, sep);
  }

  /** A string that lacks one character of the separator splits into
      itself alone. */
  lemma SplitNoMatch(s: string, sep: string, j: nat)
    requires j < |sep| && sep[j] !in s
    ensures Split(s, sep) == [s]
  {
    PiecesNone(s, sep, j);
  }

  /** Replacing a target by itself changes nothing. */
  lemma ReplaceSame(s: string, target: string)
    requires |target| > 0
    ensures Replace(s, target, target) == s
  {
    JoinPieces(s, target);
  }

  /** Replacing a unit that ends the string with nothing removes it, when
      one of the unit's characters occurs neither before it nor earlier in
      the unit. */
  lemma ReplaceRemovesUnit(a: string, unit: string, j: nat)
    requires j < |unit|
    requires unit[j] !in a && unit[j] !in unit[..j]
    ensures Replace(a + unit, unit, "") == a
  {
    PiecesAfter(a, unit, "", j);
    assert a + unit + "" == a + unit;
    assert Pieces("", unit) == [""];
    assert Join([a, ""], "") == a;
  }

  /** The characters `String.trim` removes: code points up to the space. */
  predicate IsTrimmed(c: char) { c <= ' ' }

  /** The first index from `i` on whose character `trim` keeps (Java's
      `st` scan). */
  function KeptFrom(s: string, i: nat): (lo: nat)
    requires i <= |s|
    ensures i <= lo <= |s|
    ensures forall k :: i <= k < lo ==> IsTrimmed(s[k])
    ensures lo < |s| ==> !IsTrimmed(s[lo])
    decreases |s| - i
  {
    if i == |s| || !IsTrimmed(s[i]) then i else KeptFrom(s, i + 1)
  }

  /** The end of the kept part, scanning back from `hi` but not past `lo`
      (Java's `len` scan). */
  function KeptUntil(s: string, lo: nat, hi: nat): (end: nat)
    requires lo <= hi <= |s|
    ensures lo <= end <= hi
    ensures forall k :: end <= k < hi ==> IsTrimmed(s[k])
    ensures lo < end ==> !IsTrimmed(s[end - 1])
    decreases hi
  {
    if hi == lo || !IsTrimmed(s[hi - 1]) then hi else KeptUntil(s, lo, hi - 1)
  }

  /** Everything of `s` before `lo` and from `hi` on is trimmable. */
  predicate TrimmedOutside(s: string, lo: int, hi: int)
  {
    0 <= lo <= hi <= |s| &&
    (forall i :: 0 <= i < lo ==> IsTrimmed(s[i])) &&
    (forall i :: hi <= i < |s| ==> IsTrimmed(s[i]))
  }

  /** `s.trim()`: the longest middle part of `s` that neither starts nor ends
      with a character up to the space. */
  function Trim(s: string): (r: string)
    ensures exists lo, hi :: TrimmedOutside(s, lo, hi) && r == s[lo..hi]
    ensures r == [] || (!IsTrimmed(r[0]) && !IsTrimmed(r[|r| - 1]))
  {
    var lo := KeptFrom(s, 0);
    var hi := KeptUntil(s, lo, |s|);
    assert TrimmedOutside(s, lo, hi);
    s[lo..hi]
  }

  lemma TrimUntouched(s: string)
    requires s != [] && !IsTrimmed(s[0]) && !IsTrimmed(s[|s| - 1])
    ensures Trim(s) == s
  {
  }

  // ---------------------------------------------------------------------
  // Integer.parseInt and Integer.toString (radix 10)
  // ---------------------------------------------------------------------

  predicate IsDigit(c: char) { '0' <= c <= '9' }

  predicate AllDigits(s: string) { forall i :: 0 <= i < |s| ==> IsDigit(s[i]) }

  function DigitValue(c: char): nat
    requires IsDigit(c)
  {
    (c as int) - ('0' as int)
  }

  function DigitChar(d: nat): (c: char)
    requires d < 10
    ensures IsDigit(c) && DigitValue(c) == d
  {
    (('0' as int) + d) as char
  }

  /** The value of a string of decimal digits, read most significant first. */
  function DigitsValue(s: string): nat
    requires AllDigits(s)
  {
    if s == [] then 0 else 10 * DigitsValue(s[..|s| - 1]) + DigitValue(s[|s| - 1])
  }

  /** `Integer.parseInt(s)`: an optional `-` or `+`, then at least one digit,
      and a value that fits in an `int`; anything else is a
      `NumberFormatException`, here `None`. */
  function ParseInt(s: string): (r: Option<int>)
    ensures r.Some? ==> IsInt32(r.value)
  {
    if s == [] then None
    else if s[0] == '-' || s[0] == '+' then
      if |s| == 1 || !AllDigits(s[1..]) then None
      else
        var magnitude := DigitsValue(s[1..]);
        var n: int := if s[0] == '-' then -(magnitude as int) else magnitude;
        if IsInt32(n) then Some(n) else None
    else if !AllDigits(s) then None
    else if DigitsValue(s) <= MAX_INT then Some(DigitsValue(s))
    else None
  }

  /** Decimal digits of a natural number, without leading zeros. */
  function NatToString(n: nat): (r: string)
    ensures |r| >= 1 && AllDigits(r)
    ensures r[0] == '0' ==> n == 0
  {
    (if n < 10 then "" else NatToString(n / 10)) + [DigitChar(n % 10)]
  }

  /** `Integer.toString(n)`, which is what `"" + n` appends: a '-' exactly
      for a negative number, then decimal digits without a leading zero. */
  function IntToString(n: int): (r: string)
    ensures |r| >= 1 && (r[0] == '-' <==> n < 0)
    ensures var digits := if n < 0 then r[1..] else r;
            digits != "" && AllDigits(digits) && (digits[0] == '0' ==> n == 0)
  {
    if n < 0 then "-" + NatToString(-n) else NatToString(n)
  }

  lemma {:induction false} DigitsOfNat(n: nat)
    ensures DigitsValue(NatToString(n)) == n
  {
    var r := NatToString(n);
    var prefix := if n < 10 then "" else NatToString(n / 10);
    assert r == prefix + [DigitChar(n % 10)];
    assert r[..|r| - 1] == prefix;
    assert DigitsValue(r) == 10 * DigitsValue(prefix) + n % 10;
    if n >= 10 {
      DigitsOfNat(n / 10);
      assert DigitsValue(prefix) == n / 10;
    }
  }

  /** `Integer.parseInt(Integer.toString(n)) == n` for every `int`. */
  lemma ParseIntToString(n: int)
    requires IsInt32(n)
    ensures ParseInt(IntToString(n)) == Some(n)
  {
    if n < 0 {
      ParseNegative(-n);
    } else {
      ParseNonNegative(n);
    }
  }

  /** `Integer.parseInt` throws on a character that is neither a digit nor
      a sign at the front of a longer string. */
  lemma ParseIntRejects(s: string, i: nat)
    requires i < |s| && !IsDigit(s[i])
    requires !(i == 0 && |s| > 1 && (s[0] == '-' || s[0] == '+'))
    ensures ParseInt(s) == None
  {
    if i > 0 && (s[0] == '-' || s[0] == '+') {
      assert s[1..][i - 1] == s[i];
    }
  }

  lemma ParseNonNegative(m: nat)
    requires m <= MAX_INT
    ensures ParseInt(NatToString(m)) == Some(m)
  {
    var s := NatToString(m);
    DigitsOfNat(m);
    assert IsDigit(s[0]);
  }

  lemma ParseNegative(m: nat)
    requires 0 < m <= -MIN_INT
    ensures ParseInt("-" + NatToString(m)) == Some(-(m as int))
  {
    var t := NatToString(m);
    var s := "-" + t;
    DigitsOfNat(m);
    assert s[0] == '-' && s[1..] == t;
  }

  /** `Integer.toString` of a non-negative number has no sign and no blank. */
  lemma NatToStringChars(n: nat)
    ensures forall c :: c in NatToString(n) ==> IsDigit(c)
  {
  }
}
