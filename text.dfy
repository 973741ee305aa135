/** The functions of Go's `strings` and `strconv` packages that the server
    core calls. A Go string is a sequence of bytes; here each `char` of a
    `string` stands for one byte. */
module Text {

  /** The line terminator of HTTP/1.1 messages. */
  const CRLF: string := "\r\n"

  /** The empty line that ends the head of a message. */
  const BlankLine: string := "\r\n\r\n"

  /** True when `sep` occurs in `s` starting at index `i`. */
  predicate OccursAt(s: string, sep: string, i: int)
  {
    0 <= i && i + |sep| <= |s| && s[i..i + |sep|] == sep
  }

  /** The first index at or after `i` where `sep` occurs in `s`, or -1. */
  function IndexFrom(s: string, sep: string, i: nat): (r: int)
    requires i <= |s|
    ensures r == -1 || (i <= r && OccursAt(s, sep, r))
    ensures forall j :: i <= j && (r == -1 || j < r) ==> !OccursAt(s, sep, j)
    decreases |s| - i
  {
    if OccursAt(s, sep, i) then i
    else if i == |s| then -1
    else IndexFrom(s, sep, i + 1)
  }

  /** strings.Index: the first occurrence of `sep` in `s`, or -1 when there is none. */
  function Index(s: string, sep: string): (r: int)
    ensures r == -1 <==> forall j :: !OccursAt(s, sep, j)
    ensures r != -1 ==> OccursAt(s, sep, r) && forall j :: j < r ==> !OccursAt(s, sep, j)
  {
    IndexFrom(s, sep, 0)
  }

  /** strings.Contains. */
  predicate Contains(s: string, sub: string)
  {
    Index(s, sub) >= 0
  }

  /** The three results of strings.Cut. */
  datatype CutResult = CutResult(before: string, after: string, found: bool)

  /** strings.Cut: the text around the first occurrence of `sep`. */
  function Cut(s: string, sep: string): (r: CutResult)
    ensures r.found <==> Contains(s, sep)
    ensures r.found ==> s == r.before + sep + r.after
    ensures !r.found ==> r.before == s && r.after == ""
  {
    var i := Index(s, sep);
    if i >= 0 then CutResult(s[..i], s[i + |sep|..], true) else CutResult(s, "", false)
  }

  /** strings.Split for a non-empty separator. */
  function Split(s: string, sep: string): (parts: seq<string>)
    requires |sep| > 0
    ensures 1 <= |parts|
    ensures Contains(s, sep) <==> 2 <= |parts|
    decreases |s|
  {
    var i := Index(s, sep);
    if i < 0 then [s] else [s[..i]] + Split(s[i + |sep|..], sep)
  }

  /** strings.Join; the inverse of Split. */
  function Join(parts: seq<string>, sep: string): string
  {
    if |parts| == 0 then ""
    else if |parts| == 1 then parts[0]
    else parts[0] + sep + Join(parts[1..], sep)
  }

  /** strings.TrimLeft: drops the leading characters that are in `cutset`. */
  function TrimLeft(s: string, cutset: string): (r: string)
    ensures |r| <= |s| && r == s[|s| - |r|..]
    ensures forall k :: 0 <= k < |s| - |r| ==> s[k] in cutset
    ensures r == "" || r[0] !in cutset
    decreases |s|
  {
    if s != "" && s[0] in cutset then TrimLeft(s[1..], cutset) else s
  }

  /** strings.TrimRight: drops the trailing characters that are in `cutset`. */
  function TrimRight(s: string, cutset: string): (r: string)
    ensures |r| <= |s| && r == s[..|r|]
    ensures forall k :: |r| <= k < |s| ==> s[k] in cutset
    ensures r == "" || r[|r| - 1] !in cutset
    decreases |s|
  {
    if s != "" && s[|s| - 1] in cutset then TrimRight(s[..|s| - 1], cutset) else s
  }

  /** strings.Trim: drops leading and trailing characters that are in `cutset`. */
  function Trim(s: string, cutset: string): (r: string)
    ensures |r| <= |s|
    ensures r == "" || (r[0] !in cutset && r[|r| - 1] !in cutset)
  {
    TrimRight(TrimLeft(s, cutset), cutset)
  }

  /** The case mapping of strings.ToLower on an ASCII byte. */
  function LowerByte(c: char): char
  {
    if 'A' <= c <= 'Z' then (c as int - 'A' as int + 'a' as int) as char else c
  }

  /** strings.ToLower on ASCII text. */
  function ToLower(s: string): (r: string)
    ensures |r| == |s|
    ensures forall k :: 0 <= k < |r| ==> !('A' <= r[k] <= 'Z')
    ensures forall k :: 0 <= k < |s| && !('A' <= s[k] <= 'Z') ==> r[k] == s[k]
    ensures forall k :: 0 <= k < |s| && 'A' <= s[k] <= 'Z' ==> r[k] as int == s[k] as int + 32
  {
    seq(|s|, k requires 0 <= k < |s| => LowerByte(s[k]))
  }

  /** strings.HasPrefix. */
  predicate HasPrefix(s: string, prefix: string)
  {
    |prefix| <= |s| && s[..|prefix|] == prefix
  }

  /** The first result of strings.CutPrefix: `s` without `prefix`, or `s` itself. */
  function CutPrefix(s: string, prefix: string): (r: string)
    ensures HasPrefix(s, prefix) ==> prefix + r == s
    ensures !HasPrefix(s, prefix) ==> r == s
  {
    if HasPrefix(s, prefix) then s[|prefix|..] else s
  }

  predicate IsDigit(c: char)
  {
    '0' <= c <= '9'
  }

  function DigitChar(d: nat): (c: char)
    requires d < 10
    ensures IsDigit(c)
  {
    ('0' as int + d) as char
  }

  function DigitValue(c: char): (d: nat)
    requires IsDigit(c)
    ensures d < 10 && DigitChar(d) == c
  {
    c as int - '0' as int
  }

  /** The decimal digits of `n`, most significant first, with no leading zero. */
  function Digits(n: nat): (r: string)
    ensures 1 <= |r|
    ensures forall k :: 0 <= k < |r| ==> IsDigit(r[k])
    ensures r[0] == '0' ==> n == 0
    decreases n
  {
    if n < 10 then [DigitChar(n)] else Digits(n / 10) + [DigitChar(n % 10)]
  }

  /** The `%d` verb of fmt (and strconv.Itoa). */
  function Itoa(n: int): (r: string)
    ensures 1 <= |r|
    ensures r[0] == '-' <==> n < 0
    ensures forall k :: 0 < k < |r| ==> IsDigit(r[k])
  {
    if n < 0 then "-" + Digits(-n) else Digits(n)
  }

  /** The bounds of Go's 64-bit `int` and `uint64`. */
  const MaxUint64: int := 0xFFFF_FFFF_FFFF_FFFF
  const MaxInt: int := 0x7FFF_FFFF_FFFF_FFFF
  const MinInt: int := -0x8000_0000_0000_0000

  /** The outcome of strconv.ParseUint in base 10. */
  datatype Scan = Value(v: nat) | Syntax | Overflow

  /** strconv.ParseUint's digit loop: digits are folded in from the left; the scan
      stops at the first non-digit (a syntax error) or as soon as the value passes
      the largest uint64 (a range error), whichever comes first. */
  function ScanDecimal(s: string, i: nat, acc: nat): Scan
    requires i <= |s|
    decreases |s| - i
  {
    if i == |s| then Value(acc)
    else if !IsDigit(s[i]) then Syntax
    else if acc * 10 + DigitValue(s[i]) > MaxUint64 then Overflow
    else ScanDecimal(s, i + 1, acc * 10 + DigitValue(s[i]))
  }

  /** One more character appended to a scan. */
  function ScanStep(prev: Scan, c: char): Scan
  {
    match prev
    case Value(v) =>
      if !IsDigit(c) then Syntax
      else if v * 10 + DigitValue(c) > MaxUint64 then Overflow
      else Value(v * 10 + DigitValue(c))
    case _ => prev
  }

  /** strconv.ParseUint(s, 10, 64). */
  function ParseUint(s: string): Scan
  {
    if s == "" then Syntax else ScanDecimal(s, 0, 0)
  }

  /** The text after an optional leading sign. */
  function Unsigned(s: string): (r: string)
    ensures r == s || (s != "" && (s[0] == '-' || s[0] == '+') && r == s[1..])
  {
    if s != "" && (s[0] == '-' || s[0] == '+') then s[1..] else s
  }

  /** A number strconv rejects before it can overflow: nothing follows the
      optional sign, or a non-digit comes within the first 20 bytes after it
      (19 digits never exceed the largest uint64). */
  predicate EarlySyntaxError(s: string)
  {
    var r := Unsigned(s);
    r == "" || exists j :: 0 <= j < |r| && j < 20 && !IsDigit(r[j])
  }

  /** 10 to the power `k`. */
  function Pow10(k: nat): (p: nat)
    ensures 1 <= p
  {
    if k == 0 then 1 else 10 * Pow10(k - 1)
  }

  /** strconv.Atoi with its error discarded, as the server calls it: an optional
      sign and decimal digits; 0 after a syntax error; the nearest bound of `int`
      after a range error. */
  function Atoi(s: string): (n: int)
    ensures MinInt <= n <= MaxInt
  {
    var neg := s != "" && s[0] == '-';
    match ParseUint(Unsigned(s))
    case Syntax => 0
    case Overflow => if neg then MinInt else MaxInt
    case Value(u) =>
      if neg then (if u > -MinInt then MinInt else -(u as int))
      else (if u > MaxInt then MaxInt else u)
  }

  // ---------------------------------------------------------------------------
  // Lemmas
  // ---------------------------------------------------------------------------

  /** Contains means that some occurrence exists. */
  lemma ContainsOccurrence(s: string, sub: string)
    ensures Contains(s, sub) <==> exists j :: OccursAt(s, sub, j)
  {
  }

  /** Cut splits at the first occurrence: none starts inside the text before it. */
  lemma CutFirst(s: string, sep: string)
    ensures Cut(s, sep).found ==> forall j :: j < |Cut(s, sep).before| ==> !OccursAt(s, sep, j)
  {
  }

  /** The first piece of Split is the text before the first separator. */
  lemma SplitFirst(s: string, sep: string)
    requires |sep| > 0
    ensures Split(s, sep)[0] == Cut(s, sep).before
  {
  }

  /** A separator whose first character never appears in `a` first occurs in
      `a + sep + b` right after `a`. */
  lemma {:induction false} IndexAfterClean(a: string, sep: string, b: string)
    requires |sep| > 0 && sep[0] !in a
    ensures Index(a + sep + b, sep) == |a|
  {
    var s := a + sep + b;
    assert s[|a|..|a| + |sep|] == sep;
    assert OccursAt(s, sep, |a|);
    forall j | 0 <= j < |a|
      ensures !OccursAt(s, sep, j)
    {
      assert s[j] == a[j];
    }
  }

  /** A separator whose first character never appears in `a` does not occur in `a`. */
  lemma {:induction false} IndexClean(a: string, sep: string)
    requires |sep| > 0 && sep[0] !in a
    ensures Index(a, sep) == -1 && !Contains(a, sep)
  {
    forall j | 0 <= j && j + |sep| <= |a|
      ensures !OccursAt(a, sep, j)
    {
      assert a[j..j + |sep|][0] == a[j];
    }
  }

  /** Split at a separator that occurs: the text before it, then the pieces
      of the rest. */
  lemma SplitAtFirst(s: string, sep: string)
    requires |sep| > 0 && Contains(s, sep)
    ensures Split(s, sep) == [s[..Index(s, sep)]] + Split(s[Index(s, sep) + |sep|..], sep)
  {
  }

  /** A text is the part before an occurrence of a separator, the separator
      and the rest. */
  lemma AroundOccurrence(s: string, sep: string, i: int)
    requires OccursAt(s, sep, i)
    ensures s == s[..i] + sep + s[i + |sep|..]
  {
    assert s == s[..i] + s[i..];
    assert s[i..] == s[i..i + |sep|] + s[i + |sep|..];
  }

  /** Join of a first piece and at least one more. */
  lemma JoinCons(first: string, rest: seq<string>, sep: string)
    requires 1 <= |rest|
    ensures Join([first] + rest, sep) == first + sep + Join(rest, sep)
  {
    assert ([first] + rest)[1..] == rest;
  }

  /** Join undoes Split. */
  lemma {:induction false} SplitJoin(s: string, sep: string)
    requires |sep| > 0
    ensures Join(Split(s, sep), sep) == s
    decreases |s|
  {
    if Contains(s, sep) {
      var i := Index(s, sep);
      var rest := s[i + |sep|..];
      SplitAtFirst(s, sep);
      AroundOccurrence(s, sep, i);
      SplitJoin(rest, sep);
      JoinCons(s[..i], Split(rest, sep), sep);
    }
  }

  /** An occurrence inside a prefix is an occurrence in the whole text. */
  lemma OccursInPrefix(s: string, sep: string, i: nat, j: int)
    requires i <= |s| && OccursAt(s[..i], sep, j)
    ensures OccursAt(s, sep, j) && j + |sep| <= i
  {
    assert s[..i][j..j + |sep|] == s[j..j + |sep|];
  }

  /** The text before the first separator holds no separator. */
  lemma BeforeFirstClean(s: string, sep: string)
    requires |sep| > 0 && Contains(s, sep)
    ensures !Contains(s[..Index(s, sep)], sep)
  {
    var i := Index(s, sep);
    forall j | OccursAt(s[..i], sep, j)
      ensures false
    {
      OccursInPrefix(s, sep, i, j);
    }
    ContainsOccurrence(s[..i], sep);
  }

  /** No piece holds the separator. */
  predicate Separated(parts: seq<string>, sep: string)
  {
    forall k :: 0 <= k < |parts| ==> !Contains(parts[k], sep)
  }

  /** No piece produced by Split contains the separator. */
  lemma {:induction false} SplitPiecesFree(s: string, sep: string)
    requires |sep| > 0
    ensures Separated(Split(s, sep), sep)
    decreases |s|
  {
    var i := Index(s, sep);
    if i < 0 {
      assert Split(s, sep) == [s];
    } else {
      var rest := s[i + |sep|..];
      SplitPiecesFree(rest, sep);
      assert Split(s, sep) == [s[..i]] + Split(rest, sep);
      BeforeFirstClean(s, sep);
      SeparatedCons(s[..i], Split(rest, sep), sep);
    }
  }

  /** A piece without the separator in front of pieces without it. */
  lemma SeparatedCons(first: string, rest: seq<string>, sep: string)
    requires !Contains(first, sep) && Separated(rest, sep)
    ensures Separated([first] + rest, sep)
  {
    var parts := [first] + rest;
    forall k | 0 <= k < |parts|
      ensures !Contains(parts[k], sep)
    {
      if k > 0 {
        assert parts[k] == rest[k - 1];
      }
    }
  }

  /** Split undoes Join when no piece holds the separator's first character. */
  lemma {:induction false} SplitOfJoin(parts: seq<string>, sep: string)
    requires |sep| > 0 && 1 <= |parts|
    requires forall k :: 0 <= k < |parts| ==> sep[0] !in parts[k]
    ensures Split(Join(parts, sep), sep) == parts
    decreases |parts|
  {
    if |parts| == 1 {
      IndexClean(parts[0], sep);
    } else {
      var rest := Join(parts[1..], sep);
      IndexAfterClean(parts[0], sep, rest);
      SplitOfJoin(parts[1..], sep);
      var s := parts[0] + sep + rest;
      assert s[..|parts[0]|] == parts[0];
      assert s[|parts[0]| + |sep|..] == rest;
    }
  }

  /** A line of a message head: it holds no CR and no LF. */
  predicate LineText(s: string)
  {
    '\r' !in s && '\n' !in s
  }

  /** In CRLF-joined non-empty lines, every CR is a line break: it is followed by
      LF and then by the first character of a line, which is not CR. */
  lemma {:induction false} JoinedLineBreaks(lines: seq<string>)
    requires 1 <= |lines|
    requires forall k :: 0 <= k < |lines| ==> lines[k] != "" && LineText(lines[k])
    ensures var text := Join(lines, CRLF);
      1 <= |text| && text[0] == lines[0][0] &&
      forall j :: 0 <= j < |text| && text[j] == '\r' ==> j + 2 < |text| && text[j + 2] != '\r'
    decreases |lines|
  {
    var x := lines[0];
    if |lines| > 1 {
      JoinedLineBreaks(lines[1..]);
      var rest := Join(lines[1..], CRLF);
      var text := x + CRLF + rest;
      assert Join(lines, CRLF) == text;
      assert forall j :: 0 <= j < |x| ==> text[j] == x[j];
      assert text[|x|] == '\r' && text[|x| + 1] == '\n';
      assert forall j :: |x| + 2 <= j < |text| ==> text[j] == rest[j - |x| - 2];
      assert rest[0] == lines[1][0];
    }
  }

  /** The first empty line after CRLF-joined non-empty lines is the one that
      follows them: Cut splits there. */
  lemma {:induction false} CutAfterLines(lines: seq<string>, rest: string)
    requires 1 <= |lines|
    requires forall k :: 0 <= k < |lines| ==> lines[k] != "" && LineText(lines[k])
    ensures Cut(Join(lines, CRLF) + BlankLine + rest, BlankLine) == CutResult(Join(lines, CRLF), rest, true)
  {
    var head := Join(lines, CRLF);
    var s := head + BlankLine + rest;
    JoinedLineBreaks(lines);
    assert s[|head|..|head| + 4] == BlankLine;
    assert OccursAt(s, BlankLine, |head|);
    assert forall j :: 0 <= j < |head| ==> s[j] == head[j];
    forall j | 0 <= j < |head|
      ensures !OccursAt(s, BlankLine, j)
    {
      if head[j] == '\r' {
        assert s[j + 2] == head[j + 2];
        assert j + 4 <= |s| ==> s[j..j + 4][2] == s[j + 2];
      } else {
        assert j + 4 <= |s| ==> s[j..j + 4][0] == s[j];
      }
    }
    assert Index(s, BlankLine) == |head|;
    assert s[..|head|] == head;
    assert s[|head| + 4..] == rest;
  }

  /** Trim ignores a leading character of the cut set. */
  lemma TrimLeadingCut(c: char, s: string, cutset: string)
    requires c in cutset
    ensures Trim([c] + s, cutset) == Trim(s, cutset)
  {
    assert ([c] + s)[1..] == s;
  }

  /** Trim leaves alone a string whose ends are outside the cut set. */
  lemma TrimUntouched(s: string, cutset: string)
    requires s == "" || (s[0] !in cutset && s[|s| - 1] !in cutset)
    ensures Trim(s, cutset) == s
  {
  }

  /** Lower-casing twice is lower-casing once. */
  lemma ToLowerIdempotent(s: string)
    ensures ToLower(ToLower(s)) == ToLower(s)
  {
    forall k | 0 <= k < |s|
      ensures ToLower(ToLower(s))[k] == ToLower(s)[k]
    {
    }
  }

  /** Appending one character to a scan is one more step of it. */
  lemma {:induction false} ScanSnoc(a: string, c: char, i: nat, acc: nat)
    requires i <= |a|
    ensures ScanDecimal(a + [c], i, acc) == ScanStep(ScanDecimal(a, i, acc), c)
    decreases |a| - i
  {
    var s := a + [c];
    if i < |a| {
      assert s[i] == a[i];
      if IsDigit(a[i]) && acc * 10 + DigitValue(a[i]) <= MaxUint64 {
        ScanSnoc(a, c, i + 1, acc * 10 + DigitValue(a[i]));
      }
    } else {
      assert s[i] == c;
    }
  }

  /** ParseUint reads back the digits of any uint64. */
  lemma {:induction false} ParseUintDigits(n: nat)
    requires n <= MaxUint64
    ensures ParseUint(Digits(n)) == Value(n)
    decreases n
  {
    if n >= 10 {
      var c := DigitChar(n % 10);
      ParseUintDigits(n / 10);
      ScanSnoc(Digits(n / 10), c, 0, 0);
      assert Digits(n) == Digits(n / 10) + [c];
      assert ScanDecimal(Digits(n / 10), 0, 0) == Value(n / 10);
      assert DigitValue(c) == n % 10;
      assert (n / 10) * 10 + n % 10 == n;
    } else {
      var c := DigitChar(n);
      assert Digits(n) == [c];
      assert DigitValue(c) == n;
      assert ScanDecimal([c], 1, n) == Value(n);
    }
  }

  /** What `%d` prints is one line with no space and no colon, and neither
      begins nor ends with a space. */
  lemma ItoaText(n: int)
    ensures LineText(Itoa(n)) && ' ' !in Itoa(n) && ':' !in Itoa(n)
    ensures Itoa(n)[0] != ' ' && Itoa(n)[|Itoa(n)| - 1] != ' '
  {
    var r := Itoa(n);
    forall k | 0 <= k < |r|
      ensures r[k] == '-' || IsDigit(r[k])
    {
      if n < 0 {
        assert k > 0 ==> r[k] == Digits(-n)[k - 1];
      } else {
        assert r[k] == Digits(n)[k];
      }
    }
  }

  /** Powers of 10 grow with the exponent. */
  lemma {:induction false} Pow10Monotone(a: nat, b: nat)
    requires a <= b
    ensures Pow10(a) <= Pow10(b)
    decreases b
  {
    if a < b {
      Pow10Monotone(a, b - 1);
    }
  }

  /** 10^19 is below the largest uint64. */
  lemma Pow10Nineteen()
    ensures Pow10(19) <= MaxUint64
  {
    assert Pow10(5) == 100_000;
    assert Pow10(10) == 10_000_000_000;
    assert Pow10(15) == 1_000_000_000_000_000;
    assert Pow10(19) == 10_000_000_000_000_000_000;
  }

  /** A scan that has read `i` digits holds less than 10^i; it meets a
      non-digit before the 20th byte and stops there with a syntax error. */
  lemma {:induction false} ScanSyntax(s: string, i: nat, acc: nat)
    requires i <= |s| && i < 20 && acc < Pow10(i)
    requires exists j :: i <= j < |s| && j < 20 && !IsDigit(s[j])
    ensures ScanDecimal(s, i, acc) == Syntax
    decreases |s| - i
  {
    if IsDigit(s[i]) {
      var next := acc * 10 + DigitValue(s[i]);
      assert next < Pow10(i + 1);
      Pow10Monotone(i + 1, 19);
      Pow10Nineteen();
      ScanSyntax(s, i + 1, next);
    }
  }

  /** Atoi gives 0 for a number with a syntax error that comes before any
      overflow could. */
  lemma AtoiSyntax(s: string)
    requires EarlySyntaxError(s)
    ensures Atoi(s) == 0
  {
    var r := Unsigned(s);
    if r != "" {
      ScanSyntax(r, 0, 0);
    }
  }

  /** ParseUint reports a range error on the digits of any number past the
      largest uint64. */
  lemma {:induction false} ParseUintDigitsOverflow(n: nat)
    requires MaxUint64 < n
    ensures ParseUint(Digits(n)) == Overflow
    decreases n
  {
    var c := DigitChar(n % 10);
    ScanSnoc(Digits(n / 10), c, 0, 0);
    assert Digits(n) == Digits(n / 10) + [c];
    if MaxUint64 < n / 10 {
      ParseUintDigitsOverflow(n / 10);
    } else {
      ParseUintDigits(n / 10);
      assert DigitValue(c) == n % 10;
      assert (n / 10) * 10 + n % 10 == n;
    }
  }

  /** Atoi clamps what `%d` prints to the bounds of Go's `int`: a number past
      either bound reads back as that bound. */
  lemma AtoiClamp(n: int)
    ensures Atoi(Itoa(n)) == if n < MinInt then MinInt else if n > MaxInt then MaxInt else n
  {
    if n < MinInt {
      assert Unsigned(Itoa(n)) == Digits(-n);
      if -n <= MaxUint64 {
        ParseUintDigits(-n);
      } else {
        ParseUintDigitsOverflow(-n);
      }
    } else if n > MaxInt {
      assert Unsigned(Itoa(n)) == Digits(n);
      if n <= MaxUint64 {
        ParseUintDigits(n);
      } else {
        ParseUintDigitsOverflow(n);
      }
    } else {
      AtoiItoa(n);
    }
  }

  /** Atoi reads back what `%d` prints, for every Go `int`. */
  lemma AtoiItoa(n: int)
    requires MinInt <= n <= MaxInt
    ensures Atoi(Itoa(n)) == n
  {
    if n < 0 {
      ParseUintDigits(-n);
      assert Itoa(n)[1..] == Digits(-n);
    } else {
      ParseUintDigits(n);
    }
  }
}
