/** The region map: parsing the lines of `/proc/<pid>/maps` into an ordered
    list of memory regions (`MemoryRegion::parse_maps`). Opening and reading
    the file is outside the model: the parser is given its lines. */
module Region {
  import opened Bytes
  import opened Wrappers

  /** One mapped range `[start, end)` with its permission string (such as
      `r-xp`) and its backing path (empty for an anonymous mapping). */
  datatype MemoryRegion = MemoryRegion(start: u64, end: u64, permissions: string, pathname: string)

  // ---------------------------------------------------------------------
  // `str::split_whitespace`
  // ---------------------------------------------------------------------

  /** Rust's `char::is_whitespace`: the Unicode White_Space property. */
  predicate IsWhitespace(c: char)
  {
    ('\U{9}' <= c <= '\U{D}') || c == ' ' || c == '\U{85}' || c == '\U{A0}' ||
    c == '\U{1680}' || ('\U{2000}' <= c <= '\U{200A}') || c == '\U{2028}' ||
    c == '\U{2029}' || c == '\U{202F}' || c == '\U{205F}' || c == '\U{3000}'
  }

  /** A non-empty run of non-whitespace characters. */
  predicate IsWord(w: string)
  {
    |w| > 0 && forall i :: 0 <= i < |w| ==> !IsWhitespace(w[i])
  }

  /** Length of the word at the front of `s`. */
  function WordLength(s: string): (n: nat)
    ensures n <= |s|
    ensures forall i :: 0 <= i < n ==> !IsWhitespace(s[i])
    ensures n == |s| || IsWhitespace(s[n])
  {
    if s == [] || IsWhitespace(s[0]) then 0 else 1 + WordLength(s[1..])
  }

  /** The maximal runs of non-whitespace characters of `s`, in order. */
  function Fields(s: string): (parts: seq<string>)
    ensures forall k :: 0 <= k < |parts| ==> IsWord(parts[k])
    decreases |s|
  {
    if s == [] then []
    else if IsWhitespace(s[0]) then Fields(s[1..])
    else
      var n := WordLength(s);
      [s[..n]] + Fields(s[n..])
  }

  /** `join(" ")`: the words separated by single spaces. */
  function Join(words: seq<string>): string
  {
    if words == [] then ""
    else if |words| == 1 then words[0]
    else words[0] + " " + Join(words[1..])
  }

  lemma {:induction false} WordLengthOfWord(w: string, rest: string)
    requires IsWord(w) || w == []
    requires rest == [] || IsWhitespace(rest[0])
    ensures WordLength(w + rest) == |w|
  {
    if w != [] {
      assert (w + rest)[1..] == w[1..] + rest;
      WordLengthOfWord(w[1..], rest);
    } else {
      assert w + rest == rest;
    }
  }

  /** Splitting words joined by single spaces gives the words back. */
  lemma {:induction false} FieldsOfJoin(words: seq<string>)
    requires forall k :: 0 <= k < |words| ==> IsWord(words[k])
    ensures Fields(Join(words)) == words
  {
    if |words| == 1 {
      var w := words[0];
      WordLengthOfWord(w, []);
      assert w + [] == w;
      assert w[|w|..] == [];
    } else if |words| > 1 {
      var w, rest := words[0], Join(words[1..]);
      var s := w + " " + rest;
      WordLengthOfWord(w, " " + rest);
      assert s == w + (" " + rest);
      assert s[..|w|] == w;
      assert s[|w|..] == " " + rest;
      assert (" " + rest)[1..] == rest;
      FieldsOfJoin(words[1..]);
      assert Fields(s) == [w] + words[1..];
    }
  }

  // ---------------------------------------------------------------------
  // `str::split('-')`
  // ---------------------------------------------------------------------

  /** The pieces of `s` between occurrences of `sep`; always at least one
      (an empty string splits into one empty piece). */
  function Split(s: string, sep: char): (pieces: seq<string>)
    ensures |pieces| >= 1
  {
    if s == [] then [""]
    else
      var rest := Split(s[1..], sep);
      if s[0] == sep then [""] + rest else [[s[0]] + rest[0]] + rest[1..]
  }

  /** A string without the separator splits into itself; prefixing such a
      string extends the first piece. */
  lemma {:induction false} SplitPrefix(w: string, s: string, sep: char)
    requires sep !in w
    ensures Split(w + s, sep) == [w + Split(s, sep)[0]] + Split(s, sep)[1..]
  {
    var pieces := Split(s, sep);
    if w != [] {
      var ws := w + s;
      assert ws[0] == w[0] && ws[1..] == w[1..] + s;
      SplitPrefix(w[1..], s, sep);
      var rest := Split(ws[1..], sep);
      assert rest == [w[1..] + pieces[0]] + pieces[1..];
      assert Split(ws, sep) == [[w[0]] + rest[0]] + rest[1..];
      assert [w[0]] + (w[1..] + pieces[0]) == w + pieces[0];
    } else {
      assert w + s == s && w + pieces[0] == pieces[0];
      assert pieces == [pieces[0]] + pieces[1..];
    }
  }

  /** Two separator-free pieces around one separator split back apart. */
  lemma SplitPair(a: string, b: string, sep: char)
    requires sep !in a && sep !in b
    ensures Split(a + [sep] + b, sep) == [a, b]
  {
    SplitPrefix(b, [], sep);
    assert b + [] == b && Split([], sep) == [""] && b + "" == b;
    assert Split(b, sep) == [b];
    assert ([sep] + b)[1..] == b;
    assert Split([sep] + b, sep) == ["", b];
    SplitPrefix(a, [sep] + b, sep);
    assert a + "" == a;
    assert a + [sep] + b == a + ([sep] + b);
  }

  // ---------------------------------------------------------------------
  // `u64::from_str_radix(s, 16)`
  // ---------------------------------------------------------------------

  predicate IsHexDigit(c: char)
  {
    ('0' <= c <= '9') || ('a' <= c <= 'f') || ('A' <= c <= 'F')
  }

  function DigitValue(c: char): (d: nat)
    requires IsHexDigit(c)
    ensures d < 16
  {
    if '0' <= c <= '9' then c as nat - '0' as nat
    else if 'a' <= c <= 'f' then c as nat - 'a' as nat + 10
    else c as nat - 'A' as nat + 10
  }

  predicate AllHexDigits(digits: string)
  {
    forall i :: 0 <= i < |digits| ==> IsHexDigit(digits[i])
  }

  /** The value of a string of hex digits, most significant first. */
  function HexValue(digits: string): nat
    requires AllHexDigits(digits)
  {
    if digits == [] then 0
    else 16 * HexValue(digits[..|digits| - 1]) + DigitValue(digits[|digits| - 1])
  }

  /** An optional leading `+`, then one or more hex digits (either case)
      whose value fits in 64 bits; anything else is a `ParseIntError`. */
  function ParseHex(s: string): (r: Result<u64>)
    ensures r.Err? ==> r.error == ParseIntError
  {
    if s == [] || s == "+" then Err(ParseIntError)
    else
      var digits := if s[0] == '+' then s[1..] else s;
      if !AllHexDigits(digits) then Err(ParseIntError)
      else if HexValue(digits) < U64_LIMIT then Ok(HexValue(digits))
      else Err(ParseIntError)
  }

  function HexChar(d: nat): (c: char)
    requires d < 16
    ensures IsHexDigit(c) && DigitValue(c) == d
  {
    if d < 10 then ('0' as nat + d) as char else ('a' as nat + d - 10) as char
  }

  /** Lower-case hexadecimal without leading zeros; the kernel pads its
      addresses with zeros, which `ParseHexOfPadded` shows changes nothing. */
  function ToHex(n: nat): (s: string)
    ensures |s| > 0
    ensures forall i :: 0 <= i < |s| ==> IsHexDigit(s[i])
  {
    if n < 16 then [HexChar(n)] else ToHex(n / 16) + [HexChar(n % 16)]
  }

  lemma {:induction false} HexValueOfToHex(n: nat)
    ensures HexValue(ToHex(n)) == n
  {
    if n >= 16 {
      var s := ToHex(n);
      assert s[..|s| - 1] == ToHex(n / 16);
      HexValueOfToHex(n / 16);
    }
  }

  /** Parsing the hex text of a 64-bit number gives the number back. */
  lemma ParseHexOfToHex(n: u64)
    ensures ParseHex(ToHex(n)) == Ok(n)
  {
    HexValueOfToHex(n);
  }

  /** A character that is not a hex digit, anywhere but a leading `+`,
      makes the parse fail. */
  lemma ParseHexRejectsBadDigit(s: string, i: nat)
    requires i < |s| && !IsHexDigit(s[i]) && (i > 0 || s[0] != '+')
    ensures ParseHex(s) == Err(ParseIntError)
  {
    var digits := if s[0] == '+' then s[1..] else s;
    var j := if s[0] == '+' then i - 1 else i;
    assert digits[j] == s[i];
  }

  /** A leading zero digit does not change a hex value. */
  lemma {:induction false} HexValueLeadingZero(digits: string)
    requires forall i :: 0 <= i < |digits| ==> IsHexDigit(digits[i])
    ensures HexValue("0" + digits) == HexValue(digits)
  {
    if digits != [] {
      var padded := "0" + digits;
      assert padded[..|padded| - 1] == "0" + digits[..|digits| - 1];
      assert padded[|padded| - 1] == digits[|digits| - 1];
      HexValueLeadingZero(digits[..|digits| - 1]);
    }
  }

  /** Any run of leading zero digits does not change a hex value. */
  lemma {:induction false} HexValueLeadingZeros(zeros: string, digits: string)
    requires forall i :: 0 <= i < |zeros| ==> zeros[i] == '0'
    requires forall i :: 0 <= i < |digits| ==> IsHexDigit(digits[i])
    ensures HexValue(zeros + digits) == HexValue(digits)
  {
    if zeros != [] {
      var rest := zeros[1..] + digits;
      assert zeros + digits == "0" + rest;
      HexValueLeadingZeros(zeros[1..], digits);
      HexValueLeadingZero(rest);
    } else {
      assert zeros + digits == digits;
    }
  }

  /** Zeros in front of hex digits leave a string of hex digits. */
  lemma PaddedHexDigits(zeros: string, digits: string)
    requires forall i :: 0 <= i < |zeros| ==> zeros[i] == '0'
    requires AllHexDigits(digits)
    ensures AllHexDigits(zeros + digits)
  {
    forall i | 0 <= i < |zeros + digits|
      ensures IsHexDigit((zeros + digits)[i])
    {
      if i >= |zeros| { assert (zeros + digits)[i] == digits[i - |zeros|]; }
    }
  }

  /** Parsing the zero-padded hex text of a 64-bit number, as the kernel
      writes addresses, gives the number back. */
  lemma ParseHexOfPadded(zeros: string, n: u64)
    requires forall i :: 0 <= i < |zeros| ==> zeros[i] == '0'
    ensures ParseHex(zeros + ToHex(n)) == Ok(n)
  {
    var hex := ToHex(n);
    var s := zeros + hex;
    PaddedHexDigits(zeros, hex);
    HexValueLeadingZeros(zeros, hex);
    HexValueOfToHex(n);
    assert s[0] == '0' || s[0] == hex[0];
    assert IsHexDigit(hex[0]);
  }

  // ---------------------------------------------------------------------
  // One line and the whole listing
  // ---------------------------------------------------------------------

  /** One line of the listing: `Ok(None)` when the line is skipped (fewer
      than two fields, or a first field that is not two pieces around one
      `-`), `Err` when a piece is not a 64-bit hex number, and otherwise the
      region. */
  function ParseLine(line: string): (r: Result<Option<MemoryRegion>>)
    ensures r.Err? ==> r.error == ParseIntError
  {
    ParseFields(Fields(line))
  }

  /** The decision `parse_maps` takes on a line's whitespace-separated
      fields. The pathname is the sixth field onward joined with single
      spaces. */
  function ParseFields(parts: seq<string>): (r: Result<Option<MemoryRegion>>)
    ensures r.Err? ==> r.error == ParseIntError
  {
    if |parts| < 2 then Ok(None)
    else
      var range := Split(parts[0], '-');
      if |range| != 2 then Ok(None)
      else match (ParseHex(range[0]), ParseHex(range[1]))
        case (Err(e), _) => Err(e)
        case (_, Err(e)) => Err(e)
        case (Ok(start), Ok(end)) =>
          var pathname := if |parts| > 5 then Join(parts[5..]) else "";
          Ok(Some(MemoryRegion(start, end, parts[1], pathname)))
  }

  /** What `parse_maps` returns for the first `count` lines: the region of
      every accepted line in order, or the first hex error. */
  function ParseLinesUpTo(lines: seq<string>, count: nat): (r: Result<seq<MemoryRegion>>)
    requires count <= |lines|
    ensures r.Err? ==> r.error == ParseIntError
  {
    if count == 0 then Ok([])
    else match (ParseLinesUpTo(lines, count - 1), ParseLine(lines[count - 1]))
      case (Err(e), _) => Err(e)
      case (_, Err(e)) => Err(e)
      case (Ok(regions), Ok(None)) => Ok(regions)
      case (Ok(regions), Ok(Some(region))) => Ok(regions + [region])
  }

  /** What `parse_maps` returns for the whole listing. */
  function ParseLines(lines: seq<string>): (r: Result<seq<MemoryRegion>>)
    ensures r.Err? ==> r.error == ParseIntError
  {
    ParseLinesUpTo(lines, |lines|)
  }

  /** `MemoryRegion::parse_maps`, over the lines of the listing. */
  method ParseMaps(lines: seq<string>) returns (r: Result<seq<MemoryRegion>>)
    ensures r == ParseLines(lines)
    ensures r.Err? <==> exists i :: 0 <= i < |lines| && ParseLine(lines[i]).Err?
  {
    var regions: seq<MemoryRegion> := [];
    for k := 0 to |lines|
      invariant ParseLinesUpTo(lines, k) == Ok(regions)
      invariant forall i :: 0 <= i < k ==> ParseLine(lines[i]).Ok?
    {
      match ParseLine(lines[k]) {
        case Err(e) =>
          ParseLinesError(lines, |lines|);
          ParseLinesErrorStops(lines, k + 1, |lines|);
          return Err(e);
        case Ok(None) =>
        case Ok(Some(region)) =>
          regions := regions + [region];
      }
    }
    ParseLinesError(lines, |lines|);
    return Ok(regions);
  }

  /** The parse fails exactly when some line has a malformed hex piece. */
  lemma {:induction false} ParseLinesError(lines: seq<string>, count: nat)
    requires count <= |lines|
    ensures ParseLinesUpTo(lines, count).Err? <==> exists i :: 0 <= i < count && ParseLine(lines[i]).Err?
  {
    if count > 0 {
      ParseLinesError(lines, count - 1);
      var last := ParseLine(lines[count - 1]);
      if ParseLinesUpTo(lines, count - 1).Ok? && last.Err? {
        assert ParseLinesUpTo(lines, count).Err?;
      }
    }
  }

  /** Once a line fails, the whole listing fails with it: no partial list
      is kept. */
  lemma {:induction false} ParseLinesErrorStops(lines: seq<string>, count: nat, more: nat)
    requires count <= more <= |lines|
    requires ParseLinesUpTo(lines, count).Err?
    ensures ParseLinesUpTo(lines, more) == ParseLinesUpTo(lines, count)
    decreases more - count
  {
    if count < more {
      ParseLinesErrorStops(lines, count, more - 1);
    }
  }

  /** Parsing two listings one after the other is parsing their
      concatenation: regions keep the listing's order, one per accepted
      line, with no merging or de-duplication. */
  lemma {:induction false} ParseLinesAppend(first: seq<string>, second: seq<string>, count: nat)
    requires count <= |second|
    requires ParseLines(first).Ok? && ParseLinesUpTo(second, count).Ok?
    ensures ParseLinesUpTo(first + second, |first| + count) == Ok(ParseLines(first).value + ParseLinesUpTo(second, count).value)
  {
    if count == 0 {
      ParseLinesAgree(first, first + second, |first|);
      assert ParseLines(first).value + [] == ParseLines(first).value;
    } else {
      ParseLinesAppend(first, second, count - 1);
      assert (first + second)[|first| + count - 1] == second[count - 1];
      var f, i := ParseLines(first).value, ParseLinesUpTo(second, count - 1).value;
      match ParseLine(second[count - 1]) {
        case Ok(None) =>
        case Ok(Some(region)) =>
          assert (f + i) + [region] == f + (i + [region]);
      }
    }
  }

  /** Two listings that agree on their first `count` lines parse alike that far. */
  lemma {:induction false} ParseLinesAgree(lines: seq<string>, other: seq<string>, count: nat)
    requires count <= |lines| && count <= |other|
    requires forall i :: 0 <= i < count ==> lines[i] == other[i]
    ensures ParseLinesUpTo(lines, count) == ParseLinesUpTo(other, count)
  {
    if count > 0 {
      ParseLinesAgree(lines, other, count - 1);
    }
  }

  /** A listing of one line parses to that line's region, if it has one. */
  lemma ParseSingleLine(line: string)
    requires ParseLine(line).Ok?
    ensures ParseLines([line]) == Ok(if ParseLine(line).value.Some? then [ParseLine(line).value.value] else [])
  {
    assert [line][0] == line;
    assert ParseLinesUpTo([line], 0) == Ok([]);
    match ParseLine(line) {
      case Ok(None) =>
      case Ok(Some(region)) =>
        assert [] + [region] == [region];
    }
  }

  /** The fields of a maps line as the kernel writes it, with offset, device
      and inode zeroed: `start-end perms 00000000 00:00 0 [pathname words]`. */
  function FormatFields(start: u64, end: u64, permissions: string, pathWords: seq<string>): (fields: seq<string>)
    ensures |fields| == 5 + |pathWords|
    ensures fields[0] == ToHex(start) + "-" + ToHex(end) && fields[1] == permissions
    ensures fields[5..] == pathWords
  {
    [ToHex(start) + "-" + ToHex(end), permissions, "00000000", "00:00", "0"] + pathWords
  }

  /** The maps line itself: its fields joined with single spaces. */
  function FormatLine(start: u64, end: u64, permissions: string, pathWords: seq<string>): string
  {
    Join(FormatFields(start, end, permissions, pathWords))
  }

  lemma HexIsWord(n: nat)
    ensures IsWord(ToHex(n)) && '-' !in ToHex(n)
  {
    var s := ToHex(n);
    forall i | 0 <= i < |s|
      ensures !IsWhitespace(s[i]) && s[i] != '-'
    {
      assert IsHexDigit(s[i]);
    }
  }

  lemma RangeIsWord(start: u64, end: u64)
    ensures IsWord(ToHex(start) + "-" + ToHex(end))
    ensures Split(ToHex(start) + "-" + ToHex(end), '-') == [ToHex(start), ToHex(end)]
  {
    var a, b := ToHex(start), ToHex(end);
    var range := a + "-" + b;
    HexIsWord(start);
    HexIsWord(end);
    forall i | 0 <= i < |range|
      ensures !IsWhitespace(range[i])
    {
      if i < |a| {
        assert range[i] == a[i];
      } else if i > |a| {
        assert range[i] == b[i - |a| - 1];
      }
    }
    SplitPair(a, b, '-');
  }

  /** The fields of a formatted line are the fields it was built from. */
  lemma FieldsOfFormatLine(start: u64, end: u64, permissions: string, pathWords: seq<string>)
    requires IsWord(permissions)
    requires forall k :: 0 <= k < |pathWords| ==> IsWord(pathWords[k])
    ensures Fields(FormatLine(start, end, permissions, pathWords)) == FormatFields(start, end, permissions, pathWords)
  {
    var fields := FormatFields(start, end, permissions, pathWords);
    RangeIsWord(start, end);
    assert IsWord("00000000") && IsWord("00:00") && IsWord("0");
    forall k | 0 <= k < |fields|
      ensures IsWord(fields[k])
    {
      if k >= 5 {
        assert fields[k] == pathWords[k - 5];
      }
    }
    FieldsOfJoin(fields);
  }

  /** The decision on a formatted line's fields. */
  lemma ParseFormatFields(start: u64, end: u64, permissions: string, pathWords: seq<string>)
    ensures ParseFields(FormatFields(start, end, permissions, pathWords))
         == Ok(Some(MemoryRegion(start, end, permissions, Join(pathWords))))
  {
    RangeIsWord(start, end);
    ParseHexOfToHex(start);
    ParseHexOfToHex(end);
  }

  /** Round trip: a formatted line parses to the region it describes. */
  lemma ParseFormatLine(start: u64, end: u64, permissions: string, pathWords: seq<string>)
    requires IsWord(permissions)
    requires forall k :: 0 <= k < |pathWords| ==> IsWord(pathWords[k])
    ensures ParseLine(FormatLine(start, end, permissions, pathWords))
         == Ok(Some(MemoryRegion(start, end, permissions, Join(pathWords))))
  {
    FieldsOfFormatLine(start, end, permissions, pathWords);
    ParseFormatFields(start, end, permissions, pathWords);
  }

  /** The parser does not check that a region is non-empty: a line whose end
      is below its start is accepted as it is. */
  /** The fields of the malformed line `zz-1000 r-xp`. */
  lemma MalformedLineFields()
    ensures Fields("zz-1000 r-xp") == ["zz-1000", "r-xp"]
  {
    var words := ["zz-1000", "r-xp"];
    assert IsWord(words[0]) && IsWord(words[1]);
    assert Join(words) == "zz-1000 r-xp";
    FieldsOfJoin(words);
  }

  /** The line `zz-1000 r-xp` has a non-hex start address, so it does not
      parse. */
  lemma MalformedLineRejected()
    ensures ParseLine("zz-1000 r-xp") == Err(ParseIntError)
  {
    var words := ["zz-1000", "r-xp"];
    MalformedLineFields();
    MalformedRangeSplit();
    ParseHexRejectsBadDigit("zz", 0);
    assert ParseFields(words) == Err(ParseIntError);
  }

  /** The range field of the malformed line splits into `zz` and `1000`. */
  lemma MalformedRangeSplit()
    ensures Split("zz-1000", '-') == ["zz", "1000"]
  {
    assert "zz-1000" == "zz" + ['-'] + "1000";
    assert '-' !in "zz" && '-' !in "1000";
    SplitPair("zz", "1000", '-');
  }

  /** A listing line whose start address is not hexadecimal aborts the
      whole listing with a parse error; it is not skipped. */
  lemma MalformedAddressAborts()
    ensures ParseLines(["zz-1000 r-xp"]) == Err(ParseIntError)
  {
    var lines := ["zz-1000 r-xp"];
    MalformedLineRejected();
    assert ParseLinesUpTo(lines, 0) == Ok([]);
    assert ParseLine(lines[0]) == Err(ParseIntError);
  }

  lemma ParseKeepsReversedBounds()
    ensures ParseLine(FormatLine(0x2000, 0x1000, "r-xp", [])) == Ok(Some(MemoryRegion(0x2000, 0x1000, "r-xp", "")))
  {
    assert IsWord("r-xp");
    ParseFormatLine(0x2000, 0x1000, "r-xp", []);
  }
}
