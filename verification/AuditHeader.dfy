/** The header of an audit archive, and how the highest archived id is read back from it. */
module AuditHeader {
  import Affixes
  import opened AuditArchive
  import opened Bytes
  import opened Decimal
  import opened Utf8
  import opened Wrappers

  const MAX_I64 := 0x7FFF_FFFF_FFFF_FFFF
  const MIN_I64 := -0x8000_0000_0000_0000
  const MAX_U64 := 0xFFFF_FFFF_FFFF_FFFF

  function ParseNat(digits: string, max: nat): (r: Option<nat>)
    ensures r.Some? ==> r.value <= max
  {
    if digits != "" && AllDigits(digits) && Value(digits) <= max then Some(Value(digits)) else None
  }

  function WithoutPlus(s: string): string {
    if s != "" && s[0] == '+' then s[1..] else s
  }

  /** An unsigned number; a leading plus is taken, a minus is not. */
  function ParseU64(s: string): Option<nat> {
    ParseNat(WithoutPlus(s), MAX_U64)
  }

  function ParseI64(s: string): (r: Option<int>)
    ensures r.Some? ==> MIN_I64 <= r.value <= MAX_I64
  {
    if s != "" && s[0] == '-' then
      match ParseNat(s[1..], -MIN_I64)
      case Some(n) =>
        var v: int := 0 - n;
        Some(v)
      case None => None
    else
      match ParseNat(WithoutPlus(s), MAX_I64)
      case Some(n) => Some(n)
      case None => None
  }

  predicate OccursAt(s: string, pattern: string, i: nat) {
    i + |pattern| <= |s| && s[i..i + |pattern|] == pattern
  }

  function FindFrom(s: string, pattern: string, i: nat): (r: Option<nat>)
    requires i <= |s|
    ensures r.Some? ==> i <= r.value && OccursAt(s, pattern, r.value)
    ensures forall j: nat | i <= j && (r.Some? ==> j < r.value) :: !OccursAt(s, pattern, j)
    decreases |s| - i
  {
    if OccursAt(s, pattern, i) then Some(i) else if i == |s| then None else FindFrom(s, pattern, i + 1)
  }

  /** What is before and after the first occurrence. */
  function SplitOnce(s: string, pattern: string): Option<(string, string)> {
    match FindFrom(s, pattern, 0)
    case None => None
    case Some(k) => Some((s[..k], s[k + |pattern|..]))
  }

  lemma OccurrenceStarts(s: string, pattern: string, j: nat)
    requires pattern != "" && j < |s|
    ensures OccursAt(s, pattern, j) ==> s[j] == pattern[0]
  {
    if OccursAt(s, pattern, j) { assert s[j..j + |pattern|][0] == s[j]; }
  }

  lemma SplitOnceAt(a: string, pattern: string, b: string)
    requires pattern != "" && pattern[0] !in a
    ensures SplitOnce(a + pattern + b, pattern) == Some((a, b))
  {
    var s := a + pattern + b;
    assert OccursAt(s, pattern, |a|);
    forall j: nat | j < |a| ensures OccursAt(s, pattern, j) ==> pattern[0] in a {
      assert s[j] in a;
      OccurrenceStarts(s, pattern, j);
    }
    assert s[..|a|] == a && s[|a| + |pattern|..] == b;
  }

  const ENTRIES_PREFIX := "# entries: "
  const IDS := " (ids "

  /** The last id of a range that is written out, not negative and not backwards. */
  function ParseRange(range: string): Option<int> {
    if range == "" || '-' !in range || range[0] == '-' then None
    else
      match SplitOnce(range, "-")
      case None => None
      case Some((a, b)) =>
        match (ParseI64(a), ParseI64(b))
        case (Some(first), Some(last)) => if first >= 0 && last >= first then Some(last) else None
        case _ => None
  }

  function ParseHeaderRange(line: string): Option<int> {
    match Affixes.StripPrefix(line, ENTRIES_PREFIX)
    case None => None
    case Some(rest) =>
      match SplitOnce(rest, IDS)
      case None => None
      case Some((count, tail)) =>
        if ParseU64(count) == None then None
        else
          match Affixes.StripSuffix(tail, ")")
          case None => None
          case Some(range) => ParseRange(range)
  }

  lemma ParsesBack(n: nat, max: nat)
    ensures ParseNat(Digits(n), max) == if n <= max then Some(n) else None
  {
    ValueOfDigits(n);
  }

  lemma IntParsesBack(i: int)
    requires MIN_I64 <= i <= MAX_I64
    ensures ParseI64(PrintInt(i)) == Some(i)
  {
    if i >= 0 {
      ParsesBack(i, MAX_I64);
      assert IsDigit(Digits(i)[0]);
    } else {
      ParsesBack(-i, -MIN_I64);
      assert PrintInt(i)[1..] == Digits(-i);
    }
  }

  lemma RangeOf(a: string, b: string, first: int, last: int)
    requires a != "" && '-' !in a && ParseI64(a) == Some(first) && ParseI64(b) == Some(last)
    ensures ParseRange(a + "-" + b) == if 0 <= first <= last then Some(last) else None
  {
    var range := a + "-" + b;
    assert range[|a|] == '-' && range[0] == a[0] && a[0] in a;
    SplitOnceAt(a, "-", b);
  }

  /** A printed range gives its last id exactly when it is a range of non-negative ids. */
  lemma RangeParsesBack(first: int, last: int)
    requires MIN_I64 <= first <= MAX_I64 && MIN_I64 <= last <= MAX_I64
    ensures ParseRange(PrintInt(first) + "-" + PrintInt(last)) == if 0 <= first <= last then Some(last) else None
  {
    var a, b := PrintInt(first), PrintInt(last);
    if first >= 0 {
      assert '-' !in a by { assert !IsDigit('-'); }
      IntParsesBack(first);
      IntParsesBack(last);
      RangeOf(a, b, first, last);
    } else {
      assert (a + "-" + b)[0] == '-';
    }
  }

  lemma LineParses(count: string, range: string)
    requires ' ' !in count && ParseU64(count) != None
    ensures ParseHeaderRange(ENTRIES_PREFIX + count + IDS + range + ")") == ParseRange(range)
  {
    var rest := count + IDS + (range + ")");
    assert ENTRIES_PREFIX + count + IDS + range + ")" == ENTRIES_PREFIX + rest;
    Affixes.StripsBack(ENTRIES_PREFIX, rest);
    SplitOnceAt(count, IDS, range + ")");
    Affixes.StripsBack(")", range);
  }

  const TAKEN := "# taken: "

  /** The comment lines that say the same in every archive. */
  datatype Notice = Title | ColumnNames | EmptyNote | EscapeNote

  function Line(n: Notice): string {
    match n
    case Title => "# Supply Drop BBS " + "audit log archive"
    case ColumnNames => "# columns: " + "id\\tcreated_at\\t" + "actor\\taction\\t" + "target\\tdetail"
    case EmptyNote => "# '-' means the field " + "was empty. Tabs and " + "newlines inside a field are"
    case EscapeNote => "# written as \\t and \\n " + "so one entry is " + "always one line."
  }

  function RangeLine(count: nat, first: int, last: int): string {
    ENTRIES_PREFIX + Digits(count) + IDS + (PrintInt(first) + "-" + PrintInt(last)) + ")"
  }

  function Before(takenAt: string): seq<string> {
    [Line(Title), TAKEN + takenAt]
  }

  function After(): seq<string> {
    [Line(ColumnNames), Line(EmptyNote), Line(EscapeNote)]
  }

  function Header(count: nat, first: int, last: int, takenAt: string): string {
    Unlines(Before(takenAt) + [RangeLine(count, first, last)] + After())
  }

  /** The first range among the leading comment lines. */
  function ScanHeader(lines: seq<string>): Option<int> {
    if lines == [] || !("#" <= lines[0]) then None
    else if ParseHeaderRange(lines[0]) != None then ParseHeaderRange(lines[0])
    else ScanHeader(lines[1..])
  }

  /** The lines of the header that differ from archive to archive. */
  lemma HeaderWrittenOut(count: nat, first: int, last: int, takenAt: string)
    ensures var lines := Before(takenAt) + [RangeLine(count, first, last)] + After();
            && |lines| == 6 && lines[1] == "# taken: " + takenAt
            && lines[2] == "# entries: " + Digits(count) + " (ids " + (PrintInt(first) + "-" + PrintInt(last)) + ")"
  {
    var lines := Before(takenAt) + [RangeLine(count, first, last)] + After();
    assert lines[2] == RangeLine(count, first, last);
  }

  /** The first line that `parse` takes decides, if every line up to it starts with a hash. */
  predicate DecidesAt(parse: string -> Option<int>, lines: seq<string>, i: nat, last: int) {
    && i < |lines| && parse(lines[i]) == Some(last)
    && (forall j | 0 <= j <= i :: lines[j] != "" && lines[j][0] == '#')
    && (forall j | 0 <= j < i :: parse(lines[j]) == None)
  }

  lemma DecidesLater(parse: string -> Option<int>, lines: seq<string>, i: nat, last: int)
    requires lines != [] && lines[0] != "" && lines[0][0] == '#' && parse(lines[0]) == None
    ensures DecidesAt(parse, lines, i + 1, last) <==> DecidesAt(parse, lines[1..], i, last)
  {
    if DecidesAt(parse, lines[1..], i, last) {
      forall j | 0 <= j <= i + 1 ensures lines[j] != "" && lines[j][0] == '#' {
        if j > 0 { assert lines[1..][j - 1] == lines[j]; }
      }
      forall j | 0 <= j < i + 1 ensures parse(lines[j]) == None {
        if j > 0 { assert lines[1..][j - 1] == lines[j]; }
      }
    }
  }

  lemma {:induction false} ScanFindsFirst(lines: seq<string>, last: int)
    ensures ScanHeader(lines) == Some(last) <==> exists i: nat :: DecidesAt(ParseHeaderRange, lines, i, last)
  {
    var parse := ParseHeaderRange;
    if lines == [] || lines[0] == "" || lines[0][0] != '#' {
      assert lines != [] ==> !("#" <= lines[0]);
    } else if parse(lines[0]) != None {
      assert parse(lines[0]) == Some(last) ==> DecidesAt(parse, lines, 0, last);
    } else {
      ScanFindsFirst(lines[1..], last);
      if i: nat :| DecidesAt(parse, lines[1..], i, last) { DecidesLater(parse, lines, i, last); }
      if i: nat :| DecidesAt(parse, lines, i, last) { DecidesLater(parse, lines, i - 1, last); }
    }
  }

  /** The reader looks at no more of an archive's text than this. */
  const HEADER_LIMIT := 8192

  datatype ReadError = NotUtf8

  function HeadOf(content: seq<byte>): seq<byte> {
    if |content| <= HEADER_LIMIT then content else content[..HEADER_LIMIT]
  }

  function ReadBack(content: seq<byte>): Result<Option<int>, ReadError> {
    match Decode(HeadOf(content))
    case None => Err(NotUtf8)
    case Some(head) => Ok(ScanHeader(Lines(head)))
  }

  /** The highest id an archive's text says it holds.  A bounded read that ends inside a codepoint
      is no text, and fails. */
  method ArchivedThrough(content: seq<byte>) returns (r: Result<Option<int>, ReadError>)
    ensures r == ReadBack(content)
  {
    var head := Decode(HeadOf(content));
    if head.None? { return Err(NotUtf8); }
    var lines := Lines(head.value);
    for i := 0 to |lines|
      invariant ScanHeader(lines[i..]) == ScanHeader(lines)
    {
      if !("#" <= lines[i]) { return Ok(None); }
      var range := ParseHeaderRange(lines[i]);
      if range.Some? { return Ok(range); }
      assert lines[i..][1..] == lines[i + 1..];
    }
    return Ok(None);
  }

  /** A comment that is not the line with the range. */
  predicate OtherComment(line: string) {
    |line| > 2 && line[0] == '#' && line[2] != 'e' && '\n' !in line
  }

  lemma SkipComment(line: string, rest: string)
    requires OtherComment(line)
    ensures ScanHeader(Lines(line + "\n" + rest)) == ScanHeader(Lines(rest))
  {
    var l := WithoutReturn(line);
    LinesFirst(line, rest);
    assert ENTRIES_PREFIX[2] == 'e';
    assert !(ENTRIES_PREFIX <= l);
    assert "#" <= l;
    assert ([l] + Lines(rest))[1..] == Lines(rest);
  }

  lemma CommentGoesOn(start: string, more: string)
    requires OtherComment(start) && '\n' !in more
    ensures OtherComment(start + more)
  {
  }

  lemma TitleIsOtherComment()
    ensures OtherComment(Line(Title))
  {
    CommentGoesOn("# Supply Drop BBS ", "audit log archive");
  }

  lemma ColumnNamesAreOtherComment()
    ensures OtherComment(Line(ColumnNames))
  {
    CommentGoesOn("# columns: ", "id\\tcreated_at\\t");
    CommentGoesOn("# columns: " + "id\\tcreated_at\\t", "actor\\taction\\t");
    CommentGoesOn("# columns: " + "id\\tcreated_at\\t" + "actor\\taction\\t", "target\\tdetail");
  }

  lemma EmptyNoteIsOtherComment()
    ensures OtherComment(Line(EmptyNote))
  {
    CommentGoesOn("# '-' means the field ", "was empty. Tabs and ");
    CommentGoesOn("# '-' means the field " + "was empty. Tabs and ", "newlines inside a field are");
  }

  lemma EscapeNoteIsOtherComment()
    ensures OtherComment(Line(EscapeNote))
  {
    CommentGoesOn("# written as \\t and \\n ", "so one entry is ");
    CommentGoesOn("# written as \\t and \\n " + "so one entry is ", "always one line.");
  }

  lemma RangeLineParses(count: nat, first: int, last: int)
    requires count <= MAX_U64 && MIN_I64 <= first <= MAX_I64 && MIN_I64 <= last <= MAX_I64
    ensures ParseHeaderRange(RangeLine(count, first, last)) == if 0 <= first <= last then Some(last) else None
  {
    var digits := Digits(count);
    ParsesBack(count, MAX_U64);
    assert IsDigit(digits[0]);
    assert ' ' !in digits by { assert !IsDigit(' '); }
    LineParses(digits, PrintInt(first) + "-" + PrintInt(last));
    RangeParsesBack(first, last);
  }

  lemma {:induction false} CommentsAreSkipped(lines: seq<string>, rest: string)
    requires forall i | 0 <= i < |lines| :: OtherComment(lines[i])
    ensures ScanHeader(Lines(Unlines(lines) + rest)) == ScanHeader(Lines(rest))
  {
    if lines == [] {
      assert Unlines(lines) + rest == rest;
    } else {
      var next := Unlines(lines[1..]) + rest;
      assert Unlines(lines) + rest == lines[0] + "\n" + next;
      SkipComment(lines[0], next);
      CommentsAreSkipped(lines[1..], rest);
    }
  }

  lemma {:induction false} UnlinesConcat(a: seq<string>, b: seq<string>)
    ensures Unlines(a + b) == Unlines(a) + Unlines(b)
  {
    if a == [] {
      assert a + b == b;
    } else {
      var first, rest := a[0] + "\n", a[1..];
      calc {
        Unlines(a + b);
        { assert (a + b)[1..] == rest + b; }
        first + Unlines(rest + b);
        { UnlinesConcat(rest, b); }
        first + (Unlines(rest) + Unlines(b));
        Unlines(a) + Unlines(b);
      }
    }
  }

  /** What does not start with a comment holds no range. */
  lemma BodyIsNoHeader(body: string)
    requires body == "" || body[0] != '#'
    ensures ScanHeader(Lines(body)) == None
  {
    if body != "" { assert Lines(body)[0] != "" ==> Lines(body)[0][0] == body[0]; }
  }

  lemma EntriesAreNoComment(entries: seq<AuditEntry>)
    ensures var body := Unlines(Formatted(entries)); body == "" || body[0] != '#'
  {
    if entries != [] {
      var c := Columns(entries[0]);
      assert Formatted(entries)[0] == c[0] + "\t" + Join(c[1..], '\t');
      assert Unlines(Formatted(entries))[0] == c[0][0];
    }
  }

  lemma RangeLineIsALine(count: nat, first: int, last: int)
    ensures '\n' !in RangeLine(count, first, last)
    ensures WithoutReturn(RangeLine(count, first, last)) == RangeLine(count, first, last)
    ensures "#" <= RangeLine(count, first, last)
  {
    assert '\n' !in Digits(count) by { assert !IsDigit('\n'); }
    var s := RangeLine(count, first, last);
    assert s[|s| - 1] == ')';
  }

  lemma HeaderParts(before: seq<string>, range: string, after: seq<string>, body: string)
    ensures Unlines(before + [range] + after) + body == Unlines(before) + (range + "\n" + (Unlines(after) + body))
  {
    UnlinesConcat(before + [range], after);
    UnlinesNext(before, range);
  }

  lemma HeaderCommentsAreOther(takenAt: string)
    requires '\n' !in takenAt
    ensures forall i | 0 <= i < |Before(takenAt)| :: OtherComment(Before(takenAt)[i])
    ensures forall i | 0 <= i < |After()| :: OtherComment(After()[i])
  {
    TitleIsOtherComment();
    ColumnNamesAreOtherComment();
    EmptyNoteIsOtherComment();
    EscapeNoteIsOtherComment();
    assert OtherComment(TAKEN + takenAt);
  }

  lemma RangeLineIsScanned(count: nat, first: int, last: int, rest: string)
    requires count <= MAX_U64 && MIN_I64 <= first <= MAX_I64 && MIN_I64 <= last <= MAX_I64
    requires ScanHeader(Lines(rest)) == None
    ensures ScanHeader(Lines(RangeLine(count, first, last) + "\n" + rest))
         == if 0 <= first <= last then Some(last) else None
  {
    var range := RangeLine(count, first, last);
    RangeLineIsALine(count, first, last);
    RangeLineParses(count, first, last);
    LinesFirst(range, rest);
    assert ([range] + Lines(rest))[1..] == Lines(rest);
  }

  lemma HeaderScans(count: nat, first: int, last: int, takenAt: string, body: string)
    requires count <= MAX_U64 && MIN_I64 <= first <= MAX_I64 && MIN_I64 <= last <= MAX_I64
    requires '\n' !in takenAt && (body == "" || body[0] != '#')
    ensures ScanHeader(Lines(Header(count, first, last, takenAt) + body))
         == if 0 <= first <= last then Some(last) else None
  {
    var rest := Unlines(After()) + body;
    HeaderCommentsAreOther(takenAt);
    HeaderParts(Before(takenAt), RangeLine(count, first, last), After(), body);
    BodyIsNoHeader(body);
    CommentsAreSkipped(After(), body);
    RangeLineIsScanned(count, first, last, rest);
    CommentsAreSkipped(Before(takenAt), RangeLine(count, first, last) + "\n" + rest);
  }

  /** The part of a text that a bounded read sees: if it is a text, it is the header, if that
      fits, and the start of what follows. */
  lemma HeadOfText(header: string, body: string)
    requires |Encode(header)| <= 8192
    ensures var b := Encode(header + body);
            var head := Decode(HeadOf(b));
            && (head.Some? <==> |b| <= 8192 || IsCharBoundary(b, 8192))
            && (head.Some? ==> exists rest :: rest <= body && head.value == header + rest)
  {
    var text := header + body;
    var b := Encode(text);
    if |b| <= 8192 {
      DecodeInverts(text);
    } else {
      CutIsText(text, 8192);
      if Decode(HeadOf(b)).Some? {
        var t := Decode(HeadOf(b)).value;
        DecodedEncodes(HeadOf(b));
        assert t == text[..|t|] && header == text[..|header|];
        if |t| < |header| { LongerPrefixIsLonger(text, |t|, |header|); }
        var rest := t[|header|..];
        assert rest <= body && t == header + rest;
      }
    }
  }

  /** Reading the header back gives the last id exactly when it covers a range of non-negative
      ids, provided that it can be read: that the bounded read does not end inside a codepoint of
      an entry. */
  lemma HeaderReadsBack(count: nat, first: int, last: int, takenAt: string, entries: seq<AuditEntry>)
    requires count <= MAX_U64 && MIN_I64 <= first <= MAX_I64 && MIN_I64 <= last <= MAX_I64
    requires '\n' !in takenAt && |Encode(Header(count, first, last, takenAt))| <= 8192
    ensures var content := Encode(Header(count, first, last, takenAt) + Unlines(Formatted(entries)));
            ReadBack(content) == if |content| <= 8192 || IsCharBoundary(content, 8192)
                                 then Ok(if 0 <= first <= last then Some(last) else None)
                                 else Err(NotUtf8)
  {
    var header, body := Header(count, first, last, takenAt), Unlines(Formatted(entries));
    HeadOfText(header, body);
    EntriesAreNoComment(entries);
    var head := Decode(HeadOf(Encode(header + body)));
    if head.Some? {
      var rest :| rest <= body && head.value == header + rest;
      HeaderScans(count, first, last, takenAt, rest);
    }
  }

  function Repeated(c: char, n: nat): string {
    if n == 0 then "" else [c] + Repeated(c, n - 1)
  }

  lemma {:induction false} PaddingLength(n: nat)
    ensures |Encode(Repeated('a', n))| == n
  {
    if n > 0 { PaddingLength(n - 1); }
  }

  lemma {:induction false} PaddingIsNotEscaped(n: nat, t: string)
    ensures Escape(Repeated('a', n) + t) == Repeated('a', n) + Escape(t)
  {
    var p := Repeated('a', n);
    if n == 0 {
      assert p + t == t && p + Escape(t) == Escape(t);
    } else {
      var q := Repeated('a', n - 1);
      calc {
        Escape(p + t);
        { assert (p + t)[0] == 'a' && (p + t)[1..] == q + t; }
        "a" + Escape(q + t);
        { PaddingIsNotEscaped(n - 1, t); }
        "a" + (q + Escape(t));
        p + Escape(t);
      }
    }
  }

  /** An accented letter in the wrong place makes an archive unreadable: whatever the header that
      fits, there is an entry behind which it cannot be read back. */
  lemma StraddlingNameIsUnreadable(count: nat, first: int, last: int, takenAt: string) returns (e: AuditEntry)
    requires |Encode(Header(count, first, last, takenAt))| + 4 <= 8192
    ensures ReadBack(Encode(Header(count, first, last, takenAt) + Unlines(Formatted([e])))) == Err(NotUtf8)
  {
    var header := Header(count, first, last, takenAt);
    var n := 8192 - 4 - |Encode(header)|;
    e := EntryOf(n);
    PaddedEntry(n);
    PaddedLength(header, n);
    Regroup(header, START, Repeated('a', n), ACCENT, REST);
    StraddledReadFails(header + (START + Repeated('a', n)), REST);
  }

  lemma PaddedLength(header: string, n: nat)
    ensures |Encode(header + (START + Repeated('a', n)))| == |Encode(header)| + 3 + n
  {
    EncodeConcat(header, START + Repeated('a', n));
    EncodeConcat(START, Repeated('a', n));
    PaddingLength(n);
    AccentIsTwoBytes();
  }

  lemma Regroup(a: string, b: string, c: string, d: string, e: string)
    ensures a + (b + (c + d) + e) == (a + (b + c)) + (d + e)
  {
  }

  /** A two-byte codepoint across the limit of the bounded read. */
  lemma StraddledReadFails(before: string, rest: string)
    requires |Encode(before)| == 8192 - 1
    ensures ReadBack(Encode(before + (ACCENT + rest))) == Err(NotUtf8)
  {
    EncodeConcat(before, ACCENT + rest);
    EncodeConcat(ACCENT, rest);
    AccentIsTwoBytes();
    var b := Encode(before + (ACCENT + rest));
    assert b[8192] == Encode(ACCENT)[1];
    CutIsText(before + (ACCENT + rest), 8192);
  }

  const ACCENT := "\U{E9}"
  const START := "0\t\t"
  const REST := "\t-\t-\t-\n"

  lemma AccentIsTwoBytes()
    ensures Encode(ACCENT) == [0xC3, 0xA9] && |Encode(START)| == 3
  {
    assert ACCENT[1..] == "" && START[1..] == "\t\t" && "\t\t"[1..] == "\t" && "\t"[1..] == "";
  }

  function EntryOf(n: nat): AuditEntry {
    AuditEntry(0, "", Repeated('a', n) + ACCENT, "", None, None)
  }

  lemma JoinCons(part: string, parts: seq<string>, c: char)
    requires parts != []
    ensures Join([part] + parts, c) == part + [c] + Join(parts, c)
  {
    assert ([part] + parts)[1..] == parts;
  }

  lemma JoinSix(a: string, b: string, c: string, d: string, e: string, f: string)
    ensures Join([a, b, c, d, e, f], '\t') == a + "\t" + (b + "\t" + (c + "\t" + (d + "\t" + (e + "\t" + f))))
  {
    JoinCons(e, [f], '\t');
    JoinCons(d, [e, f], '\t');
    JoinCons(c, [d, e, f], '\t');
    JoinCons(b, [c, d, e, f], '\t');
    JoinCons(a, [b, c, d, e, f], '\t');
  }

  lemma PaddedField(n: nat)
    ensures Field(Some(Repeated('a', n) + ACCENT)) == Repeated('a', n) + ACCENT
  {
    var actor := Repeated('a', n) + ACCENT;
    PassesEscape(actor);
    PaddingIsNotEscaped(n, ACCENT);
    assert ACCENT[1..] == "";
  }

  lemma AroundActor(x: string)
    ensures "0" + "\t" + ("" + "\t" + (x + "\t" + ("-" + "\t" + ("-" + "\t" + "-")))) + "\n" == START + x + REST
  {
    assert "0" + "\t" + "" + "\t" == START;
    assert "\t" + "-" + "\t" + "-" + "\t" + "-" + "\n" == REST;
  }

  lemma PaddedColumns(n: nat)
    ensures Columns(EntryOf(n)) == ["0", "", Repeated('a', n) + ACCENT, "-", "-", "-"]
  {
    PaddedField(n);
    assert PrintInt(0) == "0";
  }

  lemma PaddedEntry(n: nat)
    ensures Unlines(Formatted([EntryOf(n)])) == START + (Repeated('a', n) + ACCENT) + REST
  {
    var line := FormatEntry(EntryOf(n));
    PaddedColumns(n);
    JoinSix("0", "", Repeated('a', n) + ACCENT, "-", "-", "-");
    AroundActor(Repeated('a', n) + ACCENT);
    UnlinesNext([], line);
    assert Formatted([EntryOf(n)]) == [] + [line];
  }

  // ---- What the reader takes ----

  /** A number as the reader takes it: perhaps a plus, any number of zeros, and then its digits. */
  function Numeral(plus: bool, zeros: nat, n: nat): string {
    (if plus then "+" else "") + (Zeros(zeros) + Digits(n))
  }

  ghost predicate IsNumeral(s: string, n: nat) {
    exists plus, zeros :: s == Numeral(plus, zeros, n)
  }

  /** The one negative spelling of a number that is not negative. */
  ghost predicate IsMinusZero(s: string) {
    exists zeros :: s == "-" + (Zeros(zeros) + Digits(0))
  }

  lemma DigitsForm(s: string, n: nat)
    ensures s != "" && AllDigits(s) && Value(s) == n <==> exists zeros :: s == Zeros(zeros) + Digits(n)
  {
    if s != "" && AllDigits(s) && Value(s) == n {
      PaddedOfValue(s);
      var zeros: nat := |s| - |Digits(n)|;
      assert Padded(n, |s|) == if zeros > 0 then Zeros(zeros) + Digits(n) else Digits(n);
      assert s == Zeros(zeros) + Digits(n);
    }
    if zeros :| s == Zeros(zeros) + Digits(n) {
      ValueOfZeros(zeros, Digits(n));
      ValueOfDigits(n);
    }
  }

  lemma NatParsesExactly(s: string, n: nat, max: nat)
    ensures ParseNat(s, max) == Some(n) <==> n <= max && exists zeros :: s == Zeros(zeros) + Digits(n)
  {
    DigitsForm(s, n);
  }

  lemma NumeralStart(zeros: nat, n: nat)
    ensures var s := Zeros(zeros) + Digits(n); s != "" && IsDigit(s[0])
  {
    assert IsDigit(Digits(n)[0]);
    if zeros > 0 { assert (Zeros(zeros) + Digits(n))[0] == Zeros(zeros)[0]; }
  }

  /** A text without a minus in front is read as a number exactly if it is a numeral of it. */
  lemma NumeralWithoutPlus(s: string, n: nat)
    ensures IsNumeral(s, n) <==> exists zeros :: WithoutPlus(s) == Zeros(zeros) + Digits(n)
  {
    if zeros :| WithoutPlus(s) == Zeros(zeros) + Digits(n) {
      NumeralStart(zeros, n);
      assert s == Numeral(s[0] == '+', zeros, n);
    }
    if plus, zeros :| s == Numeral(plus, zeros, n) {
      NumeralStart(zeros, n);
      assert WithoutPlus(s) == Zeros(zeros) + Digits(n);
    }
  }

  /** A text without a minus in front is read as a number exactly if it is a numeral of it. */
  lemma NumeralsParseExactly(s: string, n: nat, max: nat)
    ensures ParseNat(WithoutPlus(s), max) == Some(n) <==> n <= max && IsNumeral(s, n)
  {
    NatParsesExactly(WithoutPlus(s), n, max);
    NumeralWithoutPlus(s, n);
  }

  lemma SplitOnceJoins(s: string, pattern: string)
    requires pattern != ""
    ensures SplitOnce(s, pattern).Some? ==>
      var (a, b) := SplitOnce(s, pattern).value; s == a + pattern + b && (|pattern| == 1 ==> pattern[0] !in a)
  {
    if SplitOnce(s, pattern).Some? {
      var (a, b) := SplitOnce(s, pattern).value;
      assert s == a + pattern + b;
      if |pattern| == 1 {
        forall i | 0 <= i < |a| ensures a[i] != pattern[0] {
          assert !OccursAt(s, pattern, i);
          assert s[i..i + 1] == [a[i]];
        }
      }
    }
  }

  function LineOf(count: string, first: string, last: string): string {
    "# entries: " + count + " (ids " + (first + "-" + last) + ")"
  }

  /** Two numbers in order; the second may be minus zero. */
  ghost predicate SpellsRange(a: string, b: string, first: nat, last: nat) {
    && IsNumeral(a, first) && first <= last <= 0x7FFF_FFFF_FFFF_FFFF
    && (IsNumeral(b, last) || (last == 0 && IsMinusZero(b)))
  }

  /** The line is made of three numbers, the last two a range. */
  ghost predicate Spells(line: string, c: string, a: string, b: string, count: nat, first: nat, last: nat) {
    line == LineOf(c, a, b) && IsNumeral(c, count) && count <= 0xFFFF_FFFF_FFFF_FFFF && SpellsRange(a, b, first, last)
  }

  lemma NumeralsHaveNoSeparator(s: string, n: nat)
    requires IsNumeral(s, n)
    ensures s != "" && s[0] != '-' && ' ' !in s && '-' !in s
  {
    var plus, zeros :| s == Numeral(plus, zeros, n);
    var digits := Zeros(zeros) + Digits(n);
    NumeralStart(zeros, n);
    ValueOfZeros(zeros, Digits(n));
    assert !IsDigit(' ') && !IsDigit('-');
    assert ' ' !in digits && '-' !in digits;
  }

  lemma IdParsesExactly(s: string, i: nat)
    ensures ParseI64(s) == Some(i) <==> i <= MAX_I64 && (IsNumeral(s, i) || (i == 0 && IsMinusZero(s)))
  {
    if s != "" && s[0] == '-' {
      NatParsesExactly(s[1..], 0, -MIN_I64);
      if zeros :| s[1..] == Zeros(zeros) + Digits(0) {
        assert s == "-" + (Zeros(zeros) + Digits(0));
      }
      if zeros :| s == "-" + (Zeros(zeros) + Digits(0)) {
        assert s[1..] == Zeros(zeros) + Digits(0);
      }
      if IsNumeral(s, i) { NumeralsHaveNoSeparator(s, i); }
    } else {
      NumeralsParseExactly(s, i, MAX_I64);
    }
  }

  lemma RangeIsSpelled(range: string, last: int) returns (a: string, b: string, first: nat)
    requires ParseRange(range) == Some(last)
    ensures last >= 0 && range == a + "-" + b && SpellsRange(a, b, first, last)
  {
    SplitOnceJoins(range, "-");
    var parts := SplitOnce(range, "-").value;
    a, b := parts.0, parts.1;
    first := ParseI64(a).value;
    assert a == "" || a[0] == range[0];
    IdParsesExactly(a, first);
    IdParsesExactly(b, last);
  }

  lemma SpelledRangeParses(a: string, b: string, first: nat, last: nat)
    requires SpellsRange(a, b, first, last)
    ensures ParseRange(a + "-" + b) == Some(last)
  {
    NumeralsHaveNoSeparator(a, first);
    IdParsesExactly(a, first);
    IdParsesExactly(b, last);
    RangeOf(a, b, first, last);
  }

  lemma SpelledLineParses(line: string, c: string, a: string, b: string, count: nat, first: nat, last: nat)
    requires Spells(line, c, a, b, count, first, last)
    ensures ParseHeaderRange(line) == Some(last)
  {
    NumeralsParseExactly(c, count, MAX_U64);
    NumeralsHaveNoSeparator(c, count);
    SpelledRangeParses(a, b, first, last);
    LineParses(c, a + "-" + b);
  }

  lemma LineParts(line: string) returns (c: string, range: string)
    requires ParseHeaderRange(line).Some?
    ensures line == ENTRIES_PREFIX + c + IDS + range + ")"
    ensures ParseU64(c).Some? && ParseRange(range) == ParseHeaderRange(line)
  {
    var rest := Affixes.StripPrefix(line, ENTRIES_PREFIX).value;
    SplitOnceJoins(rest, IDS);
    var parts := SplitOnce(rest, IDS).value;
    c := parts.0;
    range := Affixes.StripSuffix(parts.1, ")").value;
    Ungroup(ENTRIES_PREFIX, c, IDS, range, ")");
  }

  lemma Ungroup(a: string, b: string, c: string, d: string, e: string)
    ensures a + (b + c + (d + e)) == a + b + c + d + e
  {
  }

  lemma LineIsSpelled(line: string, last: int) returns (c: string, a: string, b: string, count: nat, first: nat)
    requires ParseHeaderRange(line) == Some(last)
    ensures last >= 0 && Spells(line, c, a, b, count, first, last)
  {
    var range;
    c, range := LineParts(line);
    count := ParseU64(c).value;
    NumeralsParseExactly(c, count, MAX_U64);
    a, b, first := RangeIsSpelled(range, last);
  }

  /** The reader takes a line exactly if it spells three numbers in the header's form, each with
      an optional plus and any number of leading zeros, and gives the last of them. */
  lemma AcceptedExactly(line: string, last: nat)
    ensures ParseHeaderRange(line) == Some(last) <==>
              exists c, a, b, count, first :: Spells(line, c, a, b, count, first, last)
    ensures ParseHeaderRange(line).Some? ==> ParseHeaderRange(line).value >= 0
  {
    if ParseHeaderRange(line).Some? {
      var c, a, b, count, first := LineIsSpelled(line, ParseHeaderRange(line).value);
    }
    if c, a, b, count, first :| Spells(line, c, a, b, count, first, last) {
      SpelledLineParses(line, c, a, b, count, first, last);
    }
  }

  // ---- What the writer prints ----

  /** A numeral without a sign or a leading zero. */
  predicate IsPlain(s: string) {
    s != "" && IsDigit(s[0]) && (s[0] == '0' ==> |s| == 1)
  }

  lemma PlainExactly(s: string, n: nat)
    requires IsNumeral(s, n) || (n == 0 && IsMinusZero(s))
    ensures IsPlain(s) <==> s == Digits(n)
  {
    if plus, zeros :| s == Numeral(plus, zeros, n) {
      NumeralStart(zeros, n);
      if !plus && zeros > 0 { assert s[0] == Zeros(zeros)[0]; }
      if !plus && zeros == 0 { assert s == Digits(n); }
      if plus { assert !IsDigit('+') && s[0] == '+'; }
    } else {
      assert !IsDigit('-') && s[0] == '-';
    }
    assert IsDigit(Digits(n)[0]);
  }

  /** The line of some archive's header. */
  ghost predicate IsPrinted(line: string) {
    exists count: nat, first: int, last: int ::
      && line == RangeLine(count, first, last)
      && count <= 0xFFFF_FFFF_FFFF_FFFF
      && -0x8000_0000_0000_0000 <= first <= 0x7FFF_FFFF_FFFF_FFFF
      && -0x8000_0000_0000_0000 <= last <= 0x7FFF_FFFF_FFFF_FFFF
  }

  lemma LinesDiffer(c: string, a: string, b: string, c': string, a': string, b': string)
    requires ' ' !in c && ' ' !in c' && '-' !in a && '-' !in a'
    requires LineOf(c, a, b) == LineOf(c', a', b')
    ensures c == c' && a == a' && b == b'
  {
    var range, range' := a + "-" + b, a' + "-" + b';
    Affixes.StripsBack(ENTRIES_PREFIX, c + IDS + (range + ")"));
    Affixes.StripsBack(ENTRIES_PREFIX, c' + IDS + (range' + ")"));
    assert LineOf(c, a, b) == ENTRIES_PREFIX + (c + IDS + (range + ")"));
    assert LineOf(c', a', b') == ENTRIES_PREFIX + (c' + IDS + (range' + ")"));
    SplitOnceAt(c, IDS, range + ")");
    SplitOnceAt(c', IDS, range' + ")");
    Affixes.StripsBack(")", range);
    Affixes.StripsBack(")", range');
    SplitOnceAt(a, "-", b);
    SplitOnceAt(a', "-", b');
  }

  lemma PrintedIsPlain(c: string, a: string, b: string, count: nat, first: nat, last: nat, k: nat, i: int, j: int)
    requires Spells(RangeLine(k, i, j), c, a, b, count, first, last)
    requires k <= MAX_U64 && MIN_I64 <= i <= MAX_I64 && MIN_I64 <= j <= MAX_I64
    ensures c == Digits(count) && a == Digits(first) && b == Digits(last)
  {
    SpelledLineParses(RangeLine(k, i, j), c, a, b, count, first, last);
    RangeLineParses(k, i, j);
    NumeralsHaveNoSeparator(c, count);
    NumeralsHaveNoSeparator(a, first);
    PrintedIsNumeral(k);
    PrintedIsNumeral(i);
    NumeralsHaveNoSeparator(Digits(k), k);
    NumeralsHaveNoSeparator(Digits(i), i);
    LinesDiffer(c, a, b, Digits(k), Digits(i), Digits(j));
    NumeralsAreUnique(c, count, k);
    NumeralsAreUnique(a, first, i);
  }

  lemma NumeralsAreUnique(s: string, m: nat, n: nat)
    requires IsNumeral(s, m) && IsNumeral(s, n)
    ensures m == n
  {
    var max := if m < n then n else m;
    NumeralsParseExactly(s, m, max);
    NumeralsParseExactly(s, n, max);
  }

  /** Of the lines the reader takes, the writer prints exactly those without a sign or a leading
      zero in front of any number. */
  lemma PrintedExactlyWhenPlain(line: string, c: string, a: string, b: string, count: nat, first: nat, last: nat)
    requires Spells(line, c, a, b, count, first, last)
    ensures IsPrinted(line) <==> IsPlain(c) && IsPlain(a) && IsPlain(b)
  {
    PlainExactly(c, count);
    PlainExactly(a, first);
    PlainExactly(b, last);
    if IsPlain(c) && IsPlain(a) && IsPlain(b) {
      assert line == RangeLine(count, first, last);
    }
    if IsPrinted(line) {
      var k: nat, i: int, j: int :|
        && line == RangeLine(k, i, j)
        && k <= MAX_U64 && MIN_I64 <= i <= MAX_I64 && MIN_I64 <= j <= MAX_I64;
      PrintedIsPlain(c, a, b, count, first, last, k, i, j);
    }
  }

  lemma PrintedIsNumeral(n: nat)
    ensures IsNumeral(Digits(n), n)
  {
    assert Digits(n) == Numeral(false, 0, n);
  }

  /** Lines that are taken and never printed: zeros in front, a plus, and a minus before zero. */
  lemma SomeOthersAreTaken()
    ensures var line := LineOf("007", "01", "+2"); ParseHeaderRange(line) == Some(2) && !IsPrinted(line)
    ensures var line := LineOf("0", "0", "-0"); ParseHeaderRange(line) == Some(0) && !IsPrinted(line)
  {
    assert "007" == Numeral(false, 2, 7) && "01" == Numeral(false, 1, 1) && "+2" == Numeral(true, 0, 2);
    assert "0" == Numeral(false, 0, 0) && "-0" == "-" + (Zeros(0) + Digits(0));
    SpelledLineParses(LineOf("007", "01", "+2"), "007", "01", "+2", 7, 1, 2);
    PrintedExactlyWhenPlain(LineOf("007", "01", "+2"), "007", "01", "+2", 7, 1, 2);
    SpelledLineParses(LineOf("0", "0", "-0"), "0", "0", "-0", 0, 0, 0);
    PrintedExactlyWhenPlain(LineOf("0", "0", "-0"), "0", "0", "-0", 0, 0, 0);
  }
}
