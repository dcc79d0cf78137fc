/**
 * The PHP string functions the persistence layer relies on. A PHP string is
 * a byte string: its characters are below 256.
 */
module PhpStrings {
  import opened Wrappers

  type byte = b: int | 0 <= b < 256

  predicate IsBytes(s: string) {
    forall i | 0 <= i < |s| :: s[i] as int < 256
  }

  /** PHP truthiness of a string: only "" and "0" are falsy. */
  predicate Truthy(s: string) {
    s != "" && s != "0"
  }

  // ---------------------------------------------------------------- hex

  function LowerHexDigit(n: int): (c: char)
    requires 0 <= n < 16
  {
    if n < 10 then (48 + n) as char else (87 + n) as char
  }

  function UpperHexDigit(n: int): (c: char)
    requires 0 <= n < 16
  {
    if n < 10 then (48 + n) as char else (55 + n) as char
  }

  predicate IsLowerHex(c: char) {
    '0' <= c <= '9' || 'a' <= c <= 'f'
  }

  predicate IsHexDigit(c: char) {
    '0' <= c <= '9' || 'a' <= c <= 'f' || 'A' <= c <= 'F'
  }

  function HexValue(c: char): (n: int)
    requires IsHexDigit(c)
    ensures 0 <= n < 16
  {
    if '0' <= c <= '9' then c as int - 48
    else if 'a' <= c <= 'f' then c as int - 87
    else c as int - 55
  }

  /** `bin2hex`: two lower-case hex digits per byte, high nibble first. */
  function Bin2Hex(bs: seq<byte>): (r: string)
    ensures |r| == 2 * |bs|
    ensures forall i | 0 <= i < |r| :: IsLowerHex(r[i])
  {
    if bs == [] then ""
    else [LowerHexDigit(bs[0] / 16), LowerHexDigit(bs[0] % 16)] + Bin2Hex(bs[1..])
  }

  lemma {:induction false} Bin2HexAt(bs: seq<byte>, i: nat)
    requires i < |bs|
    ensures Bin2Hex(bs)[2 * i] == LowerHexDigit(bs[i] / 16)
    ensures Bin2Hex(bs)[2 * i + 1] == LowerHexDigit(bs[i] % 16)
  {
    if i > 0 {
      Bin2HexAt(bs[1..], i - 1);
    }
  }

  /** Distinct byte strings give distinct hex strings, so two session ids
      differ whenever the random bytes behind them differ. */
  lemma Bin2HexInjective(a: seq<byte>, b: seq<byte>)
    requires Bin2Hex(a) == Bin2Hex(b)
    ensures a == b
  {
    assert |a| == |b|;
    forall i | 0 <= i < |a| ensures a[i] == b[i] {
      Bin2HexAt(a, i);
      Bin2HexAt(b, i);
      assert a[i] == a[i] / 16 * 16 + a[i] % 16;
      assert b[i] == b[i] / 16 * 16 + b[i] % 16;
    }
  }

  // ---------------------------------------------------------- urlencode

  predicate IsUnreserved(c: char) {
    'a' <= c <= 'z' || 'A' <= c <= 'Z' || '0' <= c <= '9' || c == '-' || c == '_' || c == '.'
  }

  /** The characters `urlencode` output is made of. */
  predicate IsUrlEncodedChar(c: char) {
    IsUnreserved(c) || c == '+' || c == '%'
  }

  /** `urlencode` of one byte. */
  function EncodeByte(c: char): (r: string) {
    if IsUnreserved(c) then [c]
    else if c == ' ' then "+"
    else ['%', UpperHexDigit((c as int % 256) / 16), UpperHexDigit(c as int % 16)]
  }

  /** `urlencode`: letters, digits and `-_.` are kept, a space becomes `+`,
      every other byte becomes `%` and two upper-case hex digits. */
  function UrlEncode(s: string): (r: string)
    ensures forall i | 0 <= i < |r| :: IsUrlEncodedChar(r[i])
  {
    if s == [] then ""
    else EncodeByte(s[0]) + UrlEncode(s[1..])
  }

  /** `urldecode`: `+` becomes a space and `%` with two hex digits becomes
      that byte; any other `%` stays as it is. */
  function UrlDecode(s: string): (r: string)
  {
    if s == [] then ""
    else if s[0] == '+' then " " + UrlDecode(s[1..])
    else if s[0] == '%' && |s| >= 3 && IsHexDigit(s[1]) && IsHexDigit(s[2]) then
      [(HexValue(s[1]) * 16 + HexValue(s[2])) as char] + UrlDecode(s[3..])
    else [s[0]] + UrlDecode(s[1..])
  }

  lemma DecodeEncodedByte(c: char, rest: string)
    requires c as int < 256
    ensures UrlDecode(EncodeByte(c) + rest) == [c] + UrlDecode(rest)
  {
    var e := EncodeByte(c) + rest;
    if IsUnreserved(c) {
      assert e[1..] == rest;
    } else if c == ' ' {
      assert e[1..] == rest;
    } else {
      assert e[3..] == rest;
    }
  }

  /** urldecode undoes urlencode on every byte string. */
  lemma {:induction false} UrlDecodeEncode(s: string)
    requires IsBytes(s)
    ensures UrlDecode(UrlEncode(s)) == s
  {
    if s != [] {
      DecodeEncodedByte(s[0], UrlEncode(s[1..]));
      UrlDecodeEncode(s[1..]);
    }
  }

  /** Hex strings pass through urlencode unchanged. */
  lemma {:induction false} UrlEncodeUnreserved(s: string)
    requires forall i | 0 <= i < |s| :: IsUnreserved(s[i])
    ensures UrlEncode(s) == s
  {
    if s != [] {
      UrlEncodeUnreserved(s[1..]);
    }
  }

  // ------------------------------------------------- explode and implode

  /** `explode($sep, $s)`: the pieces between the separators. */
  function Split(s: string, sep: char): (r: seq<string>)
    ensures |r| >= 1
    ensures forall i, j | 0 <= i < |r| && 0 <= j < |r[i]| :: r[i][j] != sep
  {
    if s == [] then [""]
    else if s[0] == sep then [""] + Split(s[1..], sep)
    else
      var t := Split(s[1..], sep);
      [[s[0]] + t[0]] + t[1..]
  }

  /** `implode($sep, $parts)`. */
  function Join(sep: string, parts: seq<string>): string {
    if parts == [] then ""
    else if |parts| == 1 then parts[0]
    else parts[0] + sep + Join(sep, parts[1..])
  }

  /** explode and implode are inverse. */
  lemma {:induction false} JoinSplit(s: string, sep: char)
    ensures Join([sep], Split(s, sep)) == s
  {
    if s != [] {
      JoinSplit(s[1..], sep);
      var t := Split(s[1..], sep);
      if s[0] != sep {
        if |t| > 1 {
          assert t == [t[0]] + t[1..];
          assert ([s[0]] + t[0]) + [sep] + Join([sep], t[1..]) == [s[0]] + (t[0] + [sep] + Join([sep], t[1..]));
        }
      } else {
        assert s == [sep] + s[1..];
      }
    }
  }

  /** implode then explode gives the parts back, when no part holds the
      separator. */
  lemma {:induction false} SplitJoin(parts: seq<string>, sep: char)
    requires |parts| >= 1
    requires forall i, j | 0 <= i < |parts| && 0 <= j < |parts[i]| :: parts[i][j] != sep
    ensures Split(Join([sep], parts), sep) == parts
  {
    if |parts| == 1 {
      SplitWithoutSeparator(parts[0], sep);
    } else {
      SplitJoin(parts[1..], sep);
      SplitAt(parts[0], sep, Join([sep], parts[1..]));
      assert parts == [parts[0]] + parts[1..];
    }
  }

  /** The position of the first `c` in `s`, or `|s|` when there is none. */
  function FirstIndex(s: string, c: char): (i: nat)
    ensures i <= |s| && (i < |s| ==> s[i] == c)
    ensures forall j | 0 <= j < i :: s[j] != c
  {
    if s == [] || s[0] == c then 0 else 1 + FirstIndex(s[1..], c)
  }

  /** explode cuts at the first separator: the text before it, then the
      pieces of the text after it. */
  lemma SplitFirst(s: string, sep: char)
    ensures var i := FirstIndex(s, sep);
            Split(s, sep) == if i == |s| then [s] else [s[..i]] + Split(s[i + 1..], sep)
  {
    var i := FirstIndex(s, sep);
    if i == |s| {
      SplitWithoutSeparator(s, sep);
    } else {
      SplitAt(s[..i], sep, s[i + 1..]);
      assert s == s[..i] + [sep] + s[i + 1..];
    }
  }

  /** The second piece of explode runs from after the first separator to
      the next one (or the end). */
  lemma SplitSecond(s: string, sep: char)
    ensures FirstIndex(s, sep) == |s| ==> Split(s, sep) == [s]
    ensures var i := FirstIndex(s, sep);
            i < |s| ==> |Split(s, sep)| > 1 && Split(s, sep)[1] == s[i + 1..][..FirstIndex(s[i + 1..], sep)]
  {
    SplitFirst(s, sep);
    var i := FirstIndex(s, sep);
    if i < |s| {
      SplitFirst(s[i + 1..], sep);
    }
  }

  /** A string without the separator is a single piece. */
  lemma {:induction false} SplitWithoutSeparator(s: string, sep: char)
    requires forall i | 0 <= i < |s| :: s[i] != sep
    ensures Split(s, sep) == [s]
  {
    if s != [] {
      SplitWithoutSeparator(s[1..], sep);
      assert s == [s[0]] + s[1..];
    }
  }

  /** The first piece of a join whose first part has no separator in it is
      that first part. */
  lemma {:induction false} SplitJoinFirst(parts: seq<string>, sep: char)
    requires |parts| >= 1
    requires forall j | 0 <= j < |parts[0]| :: parts[0][j] != sep
    ensures Split(Join([sep] + " ", parts), sep)[0] == parts[0]
  {
    var p := parts[0];
    if |parts| == 1 {
      SplitWithoutSeparator(p, sep);
    } else {
      SplitPrefix(p, sep, [sep] + " " + Join([sep] + " ", parts[1..]));
      assert Join([sep] + " ", parts) == p + ([sep] + " " + Join([sep] + " ", parts[1..]));
    }
  }

  lemma {:induction false} SplitPrefix(p: string, sep: char, rest: string)
    requires forall j | 0 <= j < |p| :: p[j] != sep
    requires |rest| > 0 && rest[0] == sep
    ensures Split(p + rest, sep)[0] == p
  {
    if p != [] {
      SplitPrefix(p[1..], sep, rest);
      assert (p + rest)[1..] == p[1..] + rest;
    } else {
      assert p + rest == rest;
    }
  }

  /** Splitting at the first separator: the piece before it, then the
      pieces of the rest. */
  lemma {:induction false} SplitAt(p: string, sep: char, rest: string)
    requires forall j | 0 <= j < |p| :: p[j] != sep
    ensures Split(p + [sep] + rest, sep) == [p] + Split(rest, sep)
  {
    if p == [] {
      assert p + [sep] + rest == [sep] + rest;
      assert ([sep] + rest)[1..] == rest;
    } else {
      SplitAt(p[1..], sep, rest);
      assert (p + [sep] + rest)[1..] == p[1..] + [sep] + rest;
      assert [p[0]] + p[1..] == p;
    }
  }

  // ---------------------------------------------------------- whitespace

  /** PCRE's `\s`. */
  predicate IsSpace(c: char) {
    c == ' ' || c == '\t' || c == '\n' || c == 11 as char || c == 12 as char || c == '\r'
  }

  /** Every character of `s` is white space. */
  predicate AllSpace(s: string) {
    forall j | 0 <= j < |s| :: IsSpace(s[j])
  }

  function TrimLeft(s: string): (r: string)
    ensures |r| <= |s| && r == s[|s| - |r|..]
    ensures r == [] || !IsSpace(r[0])
  {
    if s != [] && IsSpace(s[0]) then
      var r := TrimLeft(s[1..]);
      assert s[1..][|s| - 1 - |r|..] == s[|s| - |r|..];
      r
    else s
  }

  /** TrimLeft cuts nothing but white space. */
  lemma {:induction false} TrimLeftCutsSpace(s: string)
    ensures AllSpace(s[..|s| - |TrimLeft(s)|])
  {
    if s != [] && IsSpace(s[0]) {
      TrimLeftCutsSpace(s[1..]);
      var k := |s| - |TrimLeft(s)|;
      forall j | 0 < j < k
        ensures IsSpace(s[j])
      {
        assert s[j] == s[1..][..k - 1][j - 1];
      }
    }
  }

  function TrimRight(s: string): (r: string)
    ensures |r| <= |s| && r == s[..|r|]
    ensures r == [] || !IsSpace(r[|r| - 1])
  {
    if s != [] && IsSpace(s[|s| - 1]) then
      var r := TrimRight(s[..|s| - 1]);
      assert s[..|s| - 1][..|r|] == s[..|r|];
      r
    else s
  }

  /** TrimRight cuts nothing but white space. */
  lemma {:induction false} TrimRightCutsSpace(s: string)
    ensures AllSpace(s[|TrimRight(s)|..])
  {
    if s != [] && IsSpace(s[|s| - 1]) {
      var t := s[..|s| - 1];
      TrimRightCutsSpace(t);
      var n := |TrimRight(s)|;
      forall j | n <= j < |s| - 1
        ensures IsSpace(s[j])
      {
        assert s[j] == t[n..][j - n];
      }
    }
  }

  /** `preg_split('/\s*;\s*\/', $s)`: split at every `;`, dropping the
      white space on either side of each `;` (but not at the two ends).
      There is one piece per `;`-piece of the input; no piece holds a `;`,
      none but the first starts with white space and none but the last ends
      with it. */
  function SplitCookies(s: string): (r: seq<string>)
    ensures |r| == |Split(s, ';')| >= 1
    ensures forall i, j | 0 <= i < |r| && 0 <= j < |r[i]| :: r[i][j] != ';'
    ensures forall i | 0 < i < |r| :: r[i] == [] || !IsSpace(r[i][0])
    ensures forall i | 0 <= i < |r| - 1 :: r[i] == [] || !IsSpace(r[i][|r[i]| - 1])
  {
    var ps := Split(s, ';');
    seq(|ps|, i requires 0 <= i < |ps| => CookiePiece(ps[i], i > 0, i < |ps| - 1))
  }

  /** Cookie `i` is the `i`-th `;`-piece with only white space cut off: at
      its start unless it is the first, at its end unless it is the last. */
  lemma SplitCookiesPieces(s: string, i: nat)
    requires i < |Split(s, ';')|
    ensures var p := Split(s, ';')[i];
            TrimmedSlice(p, SplitCookies(s)[i], LeadingCut(p, i > 0), i > 0, i < |Split(s, ';')| - 1)
  {
  }

  /** A `;`-piece with the white space next to its `;`s removed: at the
      start unless it is the first piece, at the end unless it is the last. */
  function CookiePiece(p: string, afterSemicolon: bool, beforeSemicolon: bool): (r: string)
    requires forall j | 0 <= j < |p| :: p[j] != ';'
    ensures forall j | 0 <= j < |r| :: r[j] != ';'
    ensures afterSemicolon ==> r == [] || !IsSpace(r[0])
    ensures beforeSemicolon ==> r == [] || !IsSpace(r[|r| - 1])
    ensures TrimmedSlice(p, r, LeadingCut(p, afterSemicolon), afterSemicolon, beforeSemicolon)
  {
    var left := if afterSemicolon then TrimLeft(p) else p;
    var r := TrimRightKeepsStart(left, beforeSemicolon);
    SliceOfTrimmed(p, left, r, afterSemicolon, beforeSemicolon);
    r
  }

  /** `q` is `p` from position `a` on with only white space cut off: at the
      start only when `trimStart` holds, at the end only when `trimEnd` does. */
  predicate TrimmedSlice(p: string, q: string, a: nat, trimStart: bool, trimEnd: bool) {
    && a + |q| <= |p| && q == p[a..a + |q|]
    && AllSpace(p[..a]) && AllSpace(p[a + |q|..])
    && (!trimStart ==> a == 0)
    && (!trimEnd ==> a + |q| == |p|)
  }

  /** How much white space `CookiePiece` cuts from the start of `p`. */
  function LeadingCut(p: string, trimStart: bool): (a: nat)
    ensures a <= |p| && AllSpace(p[..a])
    ensures trimStart ==> a == |p| || !IsSpace(p[a])
    ensures !trimStart ==> a == 0
  {
    TrimLeftCutsSpace(p);
    if trimStart then |p| - |TrimLeft(p)| else 0
  }

  lemma SliceOfTrimmed(p: string, left: string, r: string, trimStart: bool, trimEnd: bool)
    requires left == if trimStart then TrimLeft(p) else p
    requires |r| <= |left| && r == left[..|r|] && AllSpace(left[|r|..])
    requires !trimEnd ==> r == left
    ensures TrimmedSlice(p, r, LeadingCut(p, trimStart), trimStart, trimEnd)
  {
    var a := LeadingCut(p, trimStart);
    assert left == p[a..];
    assert r == p[a..a + |r|] by {
      assert p[a..][..|r|] == p[a..a + |r|];
    }
    assert left[|r|..] == p[a + |r|..];
  }

  /** TrimRight when `trim` holds, keeping what the start of `s` is. */
  function TrimRightKeepsStart(s: string, trim: bool): (r: string)
    ensures |r| <= |s| && r == s[..|r|]
    ensures trim ==> r == [] || !IsSpace(r[|r| - 1])
    ensures AllSpace(s[|r|..])
    ensures !trim ==> r == s
  {
    TrimRightCutsSpace(s);
    if trim then TrimRight(s) else s
  }

  /** Every piece after the first of a "; "-join starts with the blank. */
  function SpaceAfterFirst(parts: seq<string>): (r: seq<string>)
    requires |parts| >= 1
    ensures |r| == |parts| && r[0] == parts[0]
    ensures forall i | 0 < i < |parts| :: r[i] == " " + parts[i]
  {
    seq(|parts|, i requires 0 <= i < |parts| => if i == 0 then parts[0] else " " + parts[i])
  }

  lemma {:induction false} SplitJoinSpaced(parts: seq<string>)
    requires |parts| >= 1
    requires forall i, j | 0 <= i < |parts| && 0 <= j < |parts[i]| :: parts[i][j] != ';'
    ensures Split(Join("; ", parts), ';') == SpaceAfterFirst(parts)
  {
    if |parts| == 1 {
      SplitWithoutSeparator(parts[0], ';');
    } else {
      var rest := parts[1..];
      SplitJoinSpaced(rest);
      var x := Join("; ", rest);
      assert Join("; ", parts) == parts[0] + [';'] + (" " + x);
      SplitAt(parts[0], ';', " " + x);
      SplitBlankPrefix(x);
      SpaceAfterFirstCons(parts);
    }
  }

  /** A leading blank joins the first `;`-piece. */
  lemma SplitBlankPrefix(x: string)
    ensures Split(" " + x, ';') == [" " + Split(x, ';')[0]] + Split(x, ';')[1..]
  {
    assert (" " + x)[1..] == x;
  }

  lemma SpaceAfterFirstCons(parts: seq<string>)
    requires |parts| >= 2
    ensures var t := SpaceAfterFirst(parts[1..]);
            SpaceAfterFirst(parts) == [parts[0]] + ([" " + t[0]] + t[1..])
  {
  }

  lemma CookiePieceSpaced(parts: seq<string>, i: nat)
    requires i < |parts|
    requires forall j | 0 <= j < |parts[i]| :: parts[i][j] != ';'
    requires parts[i] == [] || (!IsSpace(parts[i][0]) && !IsSpace(parts[i][|parts[i]| - 1]))
    ensures forall j | 0 <= j < |SpaceAfterFirst(parts)[i]| :: SpaceAfterFirst(parts)[i][j] != ';'
    ensures CookiePiece(SpaceAfterFirst(parts)[i], i > 0, i < |parts| - 1) == parts[i]
  {
    var ps := SpaceAfterFirst(parts);
    if i > 0 {
      assert ps[i] == " " + parts[i];
      assert ps[i][1..] == parts[i];
      assert TrimLeft(ps[i]) == parts[i];
    }
  }

  /** Cookies joined by "; " split back into the same cookies, when none
      holds a `;` or starts or ends with white space. */
  lemma SplitCookiesJoin(parts: seq<string>)
    requires |parts| >= 1
    requires forall i, j | 0 <= i < |parts| && 0 <= j < |parts[i]| :: parts[i][j] != ';'
    requires forall i | 0 <= i < |parts| :: parts[i] == [] || (!IsSpace(parts[i][0]) && !IsSpace(parts[i][|parts[i]| - 1]))
    ensures SplitCookies(Join("; ", parts)) == parts
  {
    SplitJoinSpaced(parts);
    var r := SplitCookies(Join("; ", parts));
    forall i | 0 <= i < |parts| ensures r[i] == parts[i] {
      CookiePieceSpaced(parts, i);
    }
  }

  // ------------------------------------------------------------- numbers

  function NatToString(n: nat): (r: string)
    ensures |r| >= 1
    ensures forall i | 0 <= i < |r| :: '0' <= r[i] <= '9'
  {
    if n < 10 then [(48 + n) as char]
    else NatToString(n / 10) + [(48 + n % 10) as char]
  }

  /** `sprintf('%d', $n)` and the string cast of an integer. */
  function IntToString(n: int): string {
    if n < 0 then "-" + NatToString(-n) else NatToString(n)
  }

  // ------------------------------------------------------------ booleans

  function AsciiLower(c: char): char {
    if 'A' <= c <= 'Z' then (c as int + 32) as char else c
  }

  function Lower(s: string): (r: string)
    ensures |r| == |s|
    ensures forall i | 0 <= i < |s| :: r[i] == AsciiLower(s[i])
  {
    seq(|s|, i requires 0 <= i < |s| => AsciiLower(s[i]))
  }

  predicate IsFilterSpace(c: char) {
    c == ' ' || c == '\t' || c == '\n' || c == '\r' || c == 11 as char
  }

  function Strip(s: string): string
    decreases |s|
  {
    if s != [] && IsFilterSpace(s[0]) then Strip(s[1..])
    else if s != [] && IsFilterSpace(s[|s| - 1]) then Strip(s[..|s| - 1])
    else s
  }

  /** `filter_var($s, FILTER_VALIDATE_BOOLEAN, FILTER_NULL_ON_FAILURE)`:
      None stands for PHP's null. */
  function FilterBool(s: string): (r: Option<bool>)
    ensures r == Some(true) <==> Lower(Strip(s)) in {"1", "true", "on", "yes"}
    ensures r == Some(false) <==> Lower(Strip(s)) in {"0", "false", "off", "no", ""}
  {
    var t := Lower(Strip(s));
    if t in {"1", "true", "on", "yes"} then Some(true)
    else if t in {"0", "false", "off", "no", ""} then Some(false)
    else None
  }
}
