/** Shared value types and ASCII text primitives used by every other module.
    Kotlin's String operations are modelled on the ASCII range only: `isWhitespace`
    is the set of characters 9-13 and 28-32, the regular-expression class `\s` is the
    characters 9-13 and 32, and `lowercase`/`uppercase` map only 'A'-'Z' / 'a'-'z'. */
module Common {

  datatype Option<+T> = None | Some(value: T) {
    function GetOr(default: T): T {
      match this
      case Some(v) => v
      case None => default
    }
  }

  datatype Result<+R, +E> = Success(value: R) | Failure(error: E)

  /** An unsigned 8-bit value, as stored in a file. */
  newtype byte = x: int | 0 <= x < 256

  /** The ASCII encoding of a string (`toByteArray(Charsets.US_ASCII)`). */
  function AsciiBytes(s: string): (r: seq<byte>)
    requires forall i :: 0 <= i < |s| ==> s[i] < '\U{80}'
    ensures |r| == |s|
    ensures forall i :: 0 <= i < |s| ==> r[i] as int == s[i] as int
  {
    seq(|s|, i requires 0 <= i < |s| => s[i] as int as byte)
  }

  // ---------------------------------------------------------------- characters

  /** Kotlin `Char.isWhitespace` restricted to ASCII. */
  predicate IsWhitespace(c: char) {
    ('\t' <= c <= '\r') || ('\U{1C}' <= c <= ' ')
  }

  /** The characters of the regular-expression class `\s`. */
  const RegexSpaces: set<char> := {'\t', '\n', '\U{0B}', '\U{0C}', '\r', ' '}

  function LowerChar(c: char): (r: char)
    ensures 'A' <= c <= 'Z' ==> 'a' <= r <= 'z'
    ensures !('A' <= c <= 'Z') ==> r == c
  {
    if 'A' <= c <= 'Z' then (c as int + 32) as char else c
  }

  function UpperChar(c: char): (r: char)
    ensures 'a' <= c <= 'z' ==> 'A' <= r <= 'Z'
    ensures !('a' <= c <= 'z') ==> r == c
  {
    if 'a' <= c <= 'z' then (c as int - 32) as char else c
  }

  // ---------------------------------------------------------------- strings

  function Lower(s: string): (r: string)
    ensures |r| == |s|
  {
    if s == [] then [] else [LowerChar(s[0])] + Lower(s[1..])
  }

  function Upper(s: string): (r: string)
    ensures |r| == |s|
  {
    if s == [] then [] else [UpperChar(s[0])] + Upper(s[1..])
  }

  /** `Lower` maps each character on its own. */
  lemma {:induction false} LowerAt(s: string)
    ensures forall i :: 0 <= i < |s| ==> Lower(s)[i] == LowerChar(s[i])
  {
    if s != [] {
      LowerAt(s[1..]);
      assert forall i :: 1 <= i < |s| ==> Lower(s)[i] == Lower(s[1..])[i - 1];
    }
  }

  /** `Upper` maps each character on its own. */
  lemma {:induction false} UpperAt(s: string)
    ensures forall i :: 0 <= i < |s| ==> Upper(s)[i] == UpperChar(s[i])
  {
    if s != [] {
      UpperAt(s[1..]);
      assert forall i :: 1 <= i < |s| ==> Upper(s)[i] == Upper(s[1..])[i - 1];
    }
  }

  lemma {:induction false} LowerIdempotent(s: string)
    ensures Lower(Lower(s)) == Lower(s)
  {
    if s != [] {
      LowerIdempotent(s[1..]);
      assert Lower(s)[1..] == Lower(s[1..]);
    }
  }

  lemma {:induction false} LowerConcat(a: string, b: string)
    ensures Lower(a + b) == Lower(a) + Lower(b)
  {
    if a != [] {
      LowerConcat(a[1..], b);
      assert (a + b)[0] == a[0] && (a + b)[1..] == a[1..] + b;
      assert Lower(a + b) == [LowerChar(a[0])] + Lower(a[1..] + b);
      assert Lower(a) == [LowerChar(a[0])] + Lower(a[1..]);
    } else {
      assert a + b == b;
    }
  }

  predicate IsBlank(s: string) {
    forall i :: 0 <= i < |s| ==> IsWhitespace(s[i])
  }

  /** Kotlin `a.ifBlank { b }`. */
  function IfBlank(a: string, b: string): (r: string)
    ensures !IsBlank(a) ==> r == a
    ensures IsBlank(a) ==> r == b
  {
    if IsBlank(a) then b else a
  }

  /** Kotlin `s.isNullOrBlank()`. */
  predicate IsNullOrBlank(s: Option<string>) {
    s.None? || IsBlank(s.value)
  }

  function TrimStart(s: string): (r: string)
    ensures |r| <= |s|
    ensures r == [] || !IsWhitespace(r[0])
  {
    if s == [] || !IsWhitespace(s[0]) then s else TrimStart(s[1..])
  }

  function TrimEnd(s: string): (r: string)
    ensures |r| <= |s|
    ensures r == [] || !IsWhitespace(r[|r| - 1])
  {
    if s == [] || !IsWhitespace(s[|s| - 1]) then s else TrimEnd(s[..|s| - 1])
  }

  /** `trimStart` removes a blank prefix and keeps the rest as it is. */
  lemma {:induction false} TrimStartSuffix(s: string)
    ensures var r := TrimStart(s); r == s[|s| - |r|..] && IsBlank(s[..|s| - |r|])
  {
    if s != [] && IsWhitespace(s[0]) {
      TrimStartSuffix(s[1..]);
      var r := TrimStart(s);
      assert s[1..][|s| - 1 - |r|..] == s[|s| - |r|..];
      assert s[..|s| - |r|] == [s[0]] + s[1..][..|s| - 1 - |r|];
    }
  }

  /** `trimEnd` removes a blank suffix and keeps the rest as it is. */
  lemma {:induction false} TrimEndPrefix(s: string)
    ensures var r := TrimEnd(s); r == s[..|r|] && IsBlank(s[|r|..])
  {
    if s != [] && IsWhitespace(s[|s| - 1]) {
      TrimEndPrefix(s[..|s| - 1]);
      var r := TrimEnd(s);
      assert s[..|s| - 1][..|r|] == s[..|r|];
      assert forall i :: |r| <= i < |s| - 1 ==> s[i] == s[..|s| - 1][i];
    }
  }

  /** Kotlin `trim()`: no leading and no trailing whitespace remains. */
  function Trim(s: string): (r: string)
    ensures r == [] || (!IsWhitespace(r[0]) && !IsWhitespace(r[|r| - 1]))
    ensures |r| <= |s|
  {
    TrimEndPrefix(TrimStart(s));
    TrimEnd(TrimStart(s))
  }

  lemma {:induction false} TrimStartBlank(s: string)
    requires IsBlank(s)
    ensures TrimStart(s) == []
  {
    if s != [] {
      TrimStartBlank(s[1..]);
    }
  }

  /** A string trims to nothing exactly when it is blank. */
  lemma TrimBlank(s: string)
    ensures IsBlank(s) <==> Trim(s) == []
  {
    if IsBlank(s) {
      TrimStartBlank(s);
    }
    var a := TrimStart(s);
    TrimStartSuffix(s);
    TrimEndPrefix(a);
    if Trim(s) == [] {
      assert a[0..] == a;
      assert s == s[..|s| - |a|] + a;
    }
  }

  function TrimCharStart(s: string, c: char): (r: string)
    ensures |r| <= |s|
    ensures r == [] || r[0] != c
  {
    if s == [] || s[0] != c then s else TrimCharStart(s[1..], c)
  }

  function TrimCharEnd(s: string, c: char): (r: string)
    ensures |r| <= |s|
    ensures r == [] || r[|r| - 1] != c
  {
    if s == [] || s[|s| - 1] != c then s else TrimCharEnd(s[..|s| - 1], c)
  }

  lemma {:induction false} TrimCharStartSuffix(s: string, c: char)
    ensures var r := TrimCharStart(s, c); r == s[|s| - |r|..]
  {
    if s != [] && s[0] == c {
      TrimCharStartSuffix(s[1..], c);
      var r := TrimCharStart(s, c);
      assert s[1..][|s| - 1 - |r|..] == s[|s| - |r|..];
    }
  }

  lemma {:induction false} TrimCharEndPrefix(s: string, c: char)
    ensures var r := TrimCharEnd(s, c); r == s[..|r|]
  {
    if s != [] && s[|s| - 1] == c {
      TrimCharEndPrefix(s[..|s| - 1], c);
      var r := TrimCharEnd(s, c);
      assert s[..|s| - 1][..|r|] == s[..|r|];
    }
  }

  /** Kotlin `trim(c)`: drops every leading and trailing `c`. */
  function TrimChar(s: string, c: char): (r: string)
    ensures r == [] || (r[0] != c && r[|r| - 1] != c)
  {
    TrimCharEndPrefix(TrimCharStart(s, c), c);
    TrimCharEnd(TrimCharStart(s, c), c)
  }

  predicate StartsWith(s: string, p: string) {
    |p| <= |s| && s[..|p|] == p
  }

  predicate EndsWith(s: string, p: string) {
    |p| <= |s| && s[|s| - |p|..] == p
  }

  /** Kotlin `removePrefix`. */
  function RemovePrefix(s: string, p: string): (r: string)
    ensures StartsWith(s, p) ==> p + r == s
    ensures !StartsWith(s, p) ==> r == s
  {
    if StartsWith(s, p) then s[|p|..] else s
  }

  /** Kotlin `removeSuffix`. */
  function RemoveSuffix(s: string, p: string): (r: string)
    ensures EndsWith(s, p) ==> r + p == s
    ensures !EndsWith(s, p) ==> r == s
  {
    if EndsWith(s, p) then s[..|s| - |p|] else s
  }

  /** Kotlin `contains` (case-sensitive substring test; the empty string is in every string). */
  predicate Contains(s: string, sub: string)
    decreases |s|
  {
    StartsWith(s, sub) || (s != [] && Contains(s[1..], sub))
  }

  /** `sub` occurs in `s` starting at index `i`. */
  predicate OccursAt(s: string, sub: string, i: int) {
    0 <= i <= |s| - |sub| && s[i..i + |sub|] == sub
  }

  /** `Contains` holds exactly when there is an index at which `sub` occurs. */
  lemma {:induction false} ContainsIff(s: string, sub: string)
    ensures Contains(s, sub) <==> exists i :: OccursAt(s, sub, i)
    decreases |s|
  {
    if Contains(s, sub) {
      if StartsWith(s, sub) {
        assert OccursAt(s, sub, 0);
      } else {
        ContainsIff(s[1..], sub);
        var i :| OccursAt(s[1..], sub, i);
        assert s[i + 1..i + 1 + |sub|] == s[1..][i..i + |sub|];
        assert OccursAt(s, sub, i + 1);
      }
    }
    if exists i :: OccursAt(s, sub, i) {
      var i :| OccursAt(s, sub, i);
      if i == 0 {
        assert StartsWith(s, sub);
      } else {
        assert s[1..][i - 1..i - 1 + |sub|] == s[i..i + |sub|];
        assert OccursAt(s[1..], sub, i - 1);
        ContainsIff(s[1..], sub);
      }
    }
  }

  /** Kotlin `take(n)`. */
  function Take<T>(s: seq<T>, n: nat): (r: seq<T>)
    ensures |r| == if |s| < n then |s| else n
    ensures r == s[..|r|]
  {
    if |s| <= n then s else s[..n]
  }

  /** Kotlin `replace(a, b)` for single characters. */
  function ReplaceChar(s: string, a: char, b: char): (r: string)
    ensures |r| == |s|
    ensures forall i :: 0 <= i < |s| ==> r[i] == (if s[i] == a then b else s[i])
  {
    seq(|s|, i requires 0 <= i < |s| => if s[i] == a then b else s[i])
  }

  /** Kotlin `split` on single-character delimiters: every delimiter ends a piece, so
      the pieces joined with their delimiters give back the input; empty pieces are kept. */
  function Split(s: string, delims: set<char>): (r: seq<string>)
    ensures |r| >= 1
    decreases |s|
  {
    if s == [] then [""]
    else
      var rest := Split(s[1..], delims);
      if s[0] in delims then [""] + rest
      else [[s[0]] + rest[0]] + rest[1..]
  }

  /** The non-blank pieces, in order. */
  function NonBlank(pieces: seq<string>): (r: seq<string>)
    ensures |r| <= |pieces|
    ensures forall k :: 0 <= k < |r| ==> !IsBlank(r[k])
    ensures forall k :: 0 <= k < |r| ==> r[k] in pieces
  {
    if pieces == [] then []
    else if IsBlank(pieces[0]) then NonBlank(pieces[1..])
    else [pieces[0]] + NonBlank(pieces[1..])
  }

  /** `s.split(Regex("\\s+")).filter { it.isNotBlank() }`: the whitespace-separated tokens. */
  function Tokens(s: string): seq<string> {
    NonBlank(Split(s, RegexSpaces))
  }

  /** No character of `p` is in `cs`. */
  predicate NoneIn(p: string, cs: set<char>) {
    forall j :: 0 <= j < |p| ==> p[j] !in cs
  }

  /** No piece of a split contains a delimiter. */
  lemma {:induction false} SplitPieces(s: string, delims: set<char>)
    ensures forall k :: 0 <= k < |Split(s, delims)| ==> NoneIn(Split(s, delims)[k], delims)
    decreases |s|
  {
    if s != [] {
      var rest := Split(s[1..], delims);
      SplitPieces(s[1..], delims);
      var r := Split(s, delims);
      if s[0] in delims {
        assert forall k :: 1 <= k < |r| ==> r[k] == rest[k - 1];
      } else {
        var first := [s[0]] + rest[0];
        assert NoneIn(rest[0], delims);
        assert forall j :: 1 <= j < |first| ==> first[j] == rest[0][j - 1];
        assert r[0] == first;
        assert forall k :: 1 <= k < |r| ==> r[k] == rest[k];
      }
    }
  }

  /** Text without a delimiter is a single piece. */
  lemma {:induction false} SplitWhole(a: string, delims: set<char>)
    requires NoneIn(a, delims)
    ensures Split(a, delims) == [a]
    decreases |a|
  {
    if a != [] {
      assert NoneIn(a[1..], delims) by {
        assert forall j :: 0 <= j < |a| - 1 ==> a[1..][j] == a[j + 1];
      }
      SplitWhole(a[1..], delims);
      assert [a[0]] + a[1..] == a;
    }
  }

  /** A delimiter after a delimiter-free piece ends that piece. */
  lemma {:induction false} SplitAfter(a: string, d: char, b: string, delims: set<char>)
    requires d in delims && NoneIn(a, delims)
    ensures Split(a + [d] + b, delims) == [a] + Split(b, delims)
    decreases |a|
  {
    if a == [] {
      assert a + [d] + b == [d] + b;
      assert ([d] + b)[1..] == b;
    } else {
      assert NoneIn(a[1..], delims) by {
        assert forall j :: 0 <= j < |a| - 1 ==> a[1..][j] == a[j + 1];
      }
      SplitAfter(a[1..], d, b, delims);
      var s := a + [d] + b;
      assert s[0] == a[0] && s[1..] == a[1..] + [d] + b;
      assert [a[0]] + a[1..] == a;
    }
  }

  /** Tokens are non-blank and contain no `\s` character. */
  lemma TokensWellFormed(s: string)
    ensures forall k :: 0 <= k < |Tokens(s)| ==> !IsBlank(Tokens(s)[k]) && NoneIn(Tokens(s)[k], RegexSpaces)
  {
    var pieces := Split(s, RegexSpaces);
    SplitPieces(s, RegexSpaces);
    var r := NonBlank(pieces);
    forall k | 0 <= k < |r| ensures NoneIn(r[k], RegexSpaces) {
      var m :| 0 <= m < |pieces| && pieces[m] == r[k];
    }
  }

  // ---------------------------------------------------------------- numbers

  /** Kotlin/Java integer division and remainder truncate toward zero. */
  function TDiv(a: int, b: int): (q: int)
    requires b > 0
    ensures a >= 0 ==> q >= 0 && 0 <= a - q * b < b
    ensures a < 0 ==> q <= 0 && -b < a - q * b <= 0
  {
    if a >= 0 then a / b else -((-a) / b)
  }

  function TMod(a: int, b: int): (m: int)
    requires b > 0
    ensures a == TDiv(a, b) * b + m
    ensures a >= 0 ==> 0 <= m < b
    ensures a < 0 ==> -b < m <= 0
  {
    if a >= 0 then a % b else -((-a) % b)
  }

  /** Euclidean division is determined by its quotient and remainder. */
  lemma DivUnique(a: int, b: int, q: int, r: int)
    requires b > 0 && a == b * q + r && 0 <= r < b
    ensures a / b == q && a % b == r
  {
    var q', r' := a / b, a % b;
    assert b * (q' - q) == r - r';
    assert b * (q - q') == r' - r;
    AtLeastOnce(b, q' - q);
    AtLeastOnce(b, q - q');
  }

  lemma AtLeastOnce(b: int, d: int)
    requires b > 0
    ensures d >= 1 ==> b * d >= b
  {
    if d >= 1 {
      assert b * d == b + b * (d - 1);
    }
  }

  /** Whole minutes within the hour, read two ways. */
  lemma MinutesOfHour(t: nat)
    ensures t % 3600 / 60 == t / 60 % 60
    ensures t / 60 / 60 == t / 3600
  {
    var q, r := t / 3600, t % 3600;
    DivUnique(r, 60, r / 60, r % 60);
    DivUnique(t, 60, 60 * q + r / 60, r % 60);
    DivUnique(t / 60, 60, q, r / 60);
  }

  /** Kotlin `Long.toInt()`: keeps the low 32 bits as a two's-complement value. */
  function ToInt32(x: int): (r: int)
    ensures -0x8000_0000 <= r < 0x8000_0000
    ensures -0x8000_0000 <= x < 0x8000_0000 ==> r == x
  {
    var m := x % 0x1_0000_0000;
    if m < 0x8000_0000 then m else m - 0x1_0000_0000
  }

  function Max(a: int, b: int): int { if a >= b then a else b }
  function Min(a: int, b: int): int { if a <= b then a else b }

  function DigitChar(d: nat): (c: char)
    requires d < 10
    ensures '0' <= c <= '9'
  {
    ('0' as int + d) as char
  }

  /** Decimal digits of a natural number, most significant first, no leading zeros. */
  function NatToString(n: nat): (r: string)
    ensures |r| >= 1
    ensures forall i :: 0 <= i < |r| ==> '0' <= r[i] <= '9'
    ensures n >= 10 ==> r[0] != '0'
    ensures n < 10 ==> |r| == 1
    decreases n
  {
    if n < 10 then [DigitChar(n)] else NatToString(n / 10) + [DigitChar(n % 10)]
  }

  /** Kotlin `Int.toString()` / string templates of integers. */
  function IntToString(n: int): (r: string)
    ensures |r| >= 1
    ensures n >= 0 ==> r == NatToString(n)
    ensures n < 0 ==> r == "-" + NatToString(-n)
  {
    if n >= 0 then NatToString(n) else "-" + NatToString(-n)
  }

  /** The value of a non-empty run of decimal digits. */
  function DigitsValue(s: string): (v: nat)
    requires forall i :: 0 <= i < |s| ==> '0' <= s[i] <= '9'
    decreases |s|
  {
    if s == [] then 0 else DigitsValue(s[..|s| - 1]) * 10 + (s[|s| - 1] as int - '0' as int)
  }

  /** The value of a run of decimal digits, and nothing for any other text. */
  function ParseDigits(s: string): (r: Option<nat>)
    ensures r.Some? <==> forall i :: 0 <= i < |s| ==> '0' <= s[i] <= '9'
    ensures r.Some? ==> r.value == DigitsValue(s)
  {
    if forall i :: 0 <= i < |s| ==> '0' <= s[i] <= '9' then Some(DigitsValue(s)) else None
  }

  lemma {:induction false} NatToStringRoundTrip(n: nat)
    ensures DigitsValue(NatToString(n)) == n
    decreases n
  {
    if n >= 10 {
      NatToStringRoundTrip(n / 10);
      var s := NatToString(n);
      assert s[..|s| - 1] == NatToString(n / 10);
    }
  }

  /** Decimal text reads back as its number. */
  lemma ParseNatToString(n: nat)
    ensures ParseDigits(NatToString(n)) == Some(n)
  {
    NatToStringRoundTrip(n);
  }

  /** A text is the decimal text of at most one number. */
  lemma {:induction false} SameText(e: string, a: nat, b: nat)
    requires e == NatToString(a) && e == NatToString(b)
    ensures a == b
  {
    NatToStringRoundTrip(a);
    NatToStringRoundTrip(b);
  }
}
