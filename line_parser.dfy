/**
 * The piped input format read by the stdin tree builder: one line per file,
 * `dir/dir/file:count`. `ParseLine` splits a line into its directories, its file
 * name and its count; `ParseInt` is JavaScript's `parseInt(text, 10)`.
 */
module LineParser {
  import opened JsValues
  import opened Strings

  /** What `parseLine` returns. */
  datatype ParsedLine = ParsedLine(dirs: seq<string>, name: string, count: Num)

  predicate IsDigit(c: char) { '0' <= c <= '9' }

  function DigitValue(c: char): nat
    requires IsDigit(c)
  {
    (c as int) - ('0' as int)
  }

  /** The white space and line terminators that `parseInt` skips at the start. */
  predicate IsJsSpace(c: char) {
    var k := c as int;
    k == 0x09 || k == 0x0A || k == 0x0B || k == 0x0C || k == 0x0D || k == 0x20 ||
    k == 0xA0 || k == 0x1680 || (0x2000 <= k <= 0x200A) || k == 0x2028 || k == 0x2029 ||
    k == 0x202F || k == 0x205F || k == 0x3000 || k == 0xFEFF
  }

  function TrimStart(s: string): (r: string)
    ensures r == [] || !IsJsSpace(r[0])
  {
    if s != [] && IsJsSpace(s[0]) then TrimStart(s[1..]) else s
  }

  /** The longest prefix of decimal digits. */
  function DigitPrefix(s: string): (r: string)
    ensures forall k :: 0 <= k < |r| ==> IsDigit(r[k])
  {
    if s != [] && IsDigit(s[0]) then [s[0]] + DigitPrefix(s[1..]) else []
  }

  /** The value of a string of decimal digits, most significant first. */
  function DigitsValue(ds: string): nat
    requires forall k :: 0 <= k < |ds| ==> IsDigit(ds[k])
  {
    if ds == [] then 0 else DigitsValue(ds[..|ds| - 1]) * 10 + DigitValue(ds[|ds| - 1])
  }

  /** `parseInt(s, 10)`: skip leading white space, take an optional sign, then the
      longest run of digits; no digits gives NaN. (`-0` is read as 0.) */
  function ParseInt(s: string): Num
  {
    ParseSigned(TrimStart(s))
  }

  /** `parseInt` after the leading white space: an optional sign, then digits. */
  function ParseSigned(t: string): Num
  {
    if t != [] && t[0] == '-' then Negate(ParseDigits(t[1..]))
    else if t != [] && t[0] == '+' then ParseDigits(t[1..])
    else ParseDigits(t)
  }

  /** The value of the leading run of digits, NaN when there is none. */
  function ParseDigits(u: string): Num
  {
    var digits := DigitPrefix(u);
    if digits == [] then NaN else Int(DigitsValue(digits))
  }

  function Negate(v: Num): Num
  {
    if v.NaN? then NaN else Int(0 - v.n)
  }

  /** `parseInt(x, 10)` where `x` may be `undefined`, which converts to the text
      "undefined" and so to NaN. */
  function ParseIntOrUndefined(text: Option<string>): Num
  {
    if text.Some? then ParseInt(text.value) else ParseInt("undefined")
  }

  /** Expected format for a line: `src/index.tsx:4`. The path is the text before the
      first `:`, the count the text between the first and the second `:`. */
  function ParseLine(line: string): ParsedLine
  {
    var fields := Split(line, ':');
    var segments := Split(fields[0], '/');
    ParsedLine(segments[..|segments| - 1], segments[|segments| - 1], FieldCount(fields))
  }

  /** The count field `parseInt(fields[1], 10)`, `undefined` when there is no second field. */
  function FieldCount(fields: seq<string>): Num
  {
    ParseIntOrUndefined(if |fields| >= 2 then Some(fields[1]) else None)
  }

  /** The path part of a line: everything before its first `:`. */
  function PathText(line: string): string
  {
    Split(line, ':')[0]
  }

  /** The path part of a line is the whole line, or the text before its first `:`. */
  lemma PathTextPrefix(line: string)
    ensures ':' !in PathText(line)
    ensures var path := PathText(line);
      path == line || (|path| < |line| && line[..|path|] == path && line[|path|] == ':')
  {
    var fields := Split(line, ':');
    JoinSplit(line, ':');
    if |fields| > 1 {
      assert Join(fields, ':') == fields[0] + [':'] + Join(fields[1..], ':');
      assert line[..|fields[0]|] == fields[0];
    }
  }

  /** The directories and the name are the `/`-separated pieces of the path, the
      name last, so that joining them with `/` gives the path back. */
  lemma ParseLinePath(line: string)
    ensures ParseLine(line).dirs + [ParseLine(line).name] == Split(PathText(line), '/')
    ensures Join(ParseLine(line).dirs + [ParseLine(line).name], '/') == PathText(line)
  {
    ParseLinePieces(line);
    JoinSplit(PathText(line), '/');
  }

  lemma ParseLinePieces(line: string)
    ensures ParseLine(line).dirs + [ParseLine(line).name] == Split(PathText(line), '/')
  {
    var segments := Split(PathText(line), '/');
    var p := ParseLine(line);
    assert p.dirs == segments[..|segments| - 1] && p.name == segments[|segments| - 1];
    SnocLast(segments);
  }

  lemma SnocLast(s: seq<string>)
    requires s != []
    ensures s[..|s| - 1] + [s[|s| - 1]] == s
  {
  }

  /** The count is `parseInt` of the text between the first and the second `:`,
      NaN when there is no `:`. */
  lemma ParseLineCount(line: string)
    ensures ':' !in line ==> ParseLine(line).count == NaN
    ensures ':' in line ==> ParseLine(line).count == ParseInt(Split(line, ':')[1])
  {
    assert DigitPrefix("undefined") == [];
  }

  /** The decimal digits of a natural number, without leading zeros. */
  function Decimal(n: nat): (r: string)
    ensures r != [] && forall k :: 0 <= k < |r| ==> IsDigit(r[k])
  {
    var last := ['0' + ((n % 10) as char)];
    if n < 10 then last else Decimal(n / 10) + last
  }

  /** An integer written the way the input format expects it. */
  function IntText(n: int): string
  {
    if n < 0 then ['-'] + Decimal(-n) else Decimal(n)
  }

  lemma {:induction false} DecimalValue(n: nat)
    ensures DigitsValue(Decimal(n)) == n
  {
    var d := Decimal(n);
    if n >= 10 {
      DecimalValue(n / 10);
      assert d[..|d| - 1] == Decimal(n / 10);
    }
  }

  lemma {:induction false} DigitPrefixOfDigits(a: string, rest: string)
    requires forall k :: 0 <= k < |a| ==> IsDigit(a[k])
    requires rest == [] || !IsDigit(rest[0])
    ensures DigitPrefix(a + rest) == a
    decreases |a|
  {
    if a == [] {
      assert a + rest == rest;
    } else {
      assert (a + rest)[1..] == a[1..] + rest;
      DigitPrefixOfDigits(a[1..], rest);
      assert [a[0]] + a[1..] == a;
    }
  }

  /** A run of digits followed by a non-digit is read as its value. */
  lemma ParseDigitRun(ds: string, rest: string)
    requires ds != [] && forall k :: 0 <= k < |ds| ==> IsDigit(ds[k])
    requires rest == [] || !IsDigit(rest[0])
    ensures ParseDigits(ds + rest) == Int(DigitsValue(ds))
  {
    DigitPrefixOfDigits(ds, rest);
  }

  /** Text that starts with neither white space nor a sign is read as digits. */
  lemma ParseIntPlain(s: string)
    requires s != [] && !IsJsSpace(s[0]) && s[0] != '-' && s[0] != '+'
    ensures ParseInt(s) == ParseDigits(s)
  {
  }

  /** Text that starts with a minus sign is read as negated digits. */
  lemma ParseIntMinus(s: string)
    requires s != [] && s[0] == '-'
    ensures ParseInt(s) == Negate(ParseDigits(s[1..]))
  {
    assert !IsJsSpace(s[0]);
  }

  /** `parseInt` reads back an integer written in decimal, whatever follows it
      as long as it does not start with a digit. */
  lemma ParseIntText(n: int, rest: string)
    requires rest == [] || !IsDigit(rest[0])
    ensures ParseInt(IntText(n) + rest) == Int(n)
  {
    var s := IntText(n) + rest;
    if n < 0 {
      var ds := Decimal(-n);
      assert s == ['-'] + (ds + rest);
      ParseIntMinus(s);
      assert s[1..] == ds + rest;
      ParseDigitRun(ds, rest);
      DecimalValue(-n);
    } else {
      var ds := Decimal(n);
      assert s[0] == ds[0];
      assert IsDigit(s[0]);
      ParseIntPlain(s);
      ParseDigitRun(ds, rest);
      DecimalValue(n);
    }
  }

  /** `parseInt` ignores the white space in front of the number. */
  lemma ParseIntSkipsSpace(c: char, s: string)
    requires IsJsSpace(c)
    ensures ParseInt([c] + s) == ParseInt(s)
  {
    assert ([c] + s)[1..] == s;
  }

  /** A line in the expected format. */
  function FormatLine(dirs: seq<string>, name: string, count: int): string
  {
    Join(dirs + [name], '/') + ":" + IntText(count)
  }

  /** Parsing a line written in the expected format gives its pieces back, provided
      no directory and no name contains `/` or `:`. */
  lemma ParseFormatLine(dirs: seq<string>, name: string, count: int)
    requires forall k :: 0 <= k < |dirs| ==> '/' !in dirs[k] && ':' !in dirs[k]
    requires '/' !in name && ':' !in name
    ensures ParseLine(FormatLine(dirs, name, count)) == ParsedLine(dirs, name, Int(count))
  {
    var pieces := dirs + [name];
    var path := Join(pieces, '/');
    NoSepInJoin(pieces, '/', ':');
    var text := IntText(count);
    assert ':' !in text;
    SplitPrefix(path, text, ':');
    SplitNoSep(text, ':');
    assert Split(FormatLine(dirs, name, count), ':') == [path, text];
    SplitJoin(pieces, '/');
    ParseIntText(count, "");
    assert text + "" == text;
    assert pieces[..|pieces| - 1] == dirs;
  }

  /** A join of pieces without `c` contains no `c`, when the separator is not `c`. */
  lemma {:induction false} NoSepInJoin(parts: seq<string>, sep: char, c: char)
    requires sep != c
    requires forall k :: 0 <= k < |parts| ==> c !in parts[k]
    ensures c !in Join(parts, sep)
    decreases |parts|
  {
    if |parts| > 1 {
      NoSepInJoin(parts[1..], sep, c);
    }
  }
}
