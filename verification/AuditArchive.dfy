/** Audit archives as text: the file name, and one line per entry. */
module AuditArchive {
  import Affixes
  import opened Decimal
  import Sequences
  import opened Wrappers

  // ---- File names ----

  function Zeros(n: nat): (s: string)
    ensures |s| == n && forall i | 0 <= i < n :: s[i] == '0'
  {
    if n == 0 then "" else "0" + Zeros(n - 1)
  }

  /** A numeral padded with zeros to a width. */
  function Padded(n: nat, width: nat): (s: string)
    ensures AllDigits(s) && |s| == if |Digits(n)| < width then width else |Digits(n)|
  {
    if |Digits(n)| < width then Zeros(width - |Digits(n)|) + Digits(n) else Digits(n)
  }

  /** A signed number padded to a width; the sign counts. */
  function PaddedInt(i: int, width: nat): string {
    if i >= 0 then Padded(i, width) else "-" + Padded(-i, if width > 0 then width - 1 else 0)
  }

  /** `stem` is four digits, a hyphen and the two digits of a month. */
  predicate IsYearMonth(stem: string) {
    && |stem| == 7 && stem[4] == '-'
    && (forall i | 0 <= i < 7 && i != 4 :: IsDigit(stem[i]))
    && 1 <= 10 * (stem[5] as int - '0' as int) + (stem[6] as int - '0' as int) <= 12
  }

  const ARCHIVE_PREFIX := "audit-"
  const ARCHIVE_SUFFIX := ".zip"

  predicate IsAuditArchive(filename: string) {
    match Affixes.StripPrefix(filename, ARCHIVE_PREFIX)
    case None => false
    case Some(rest) =>
      match Affixes.StripSuffix(rest, ARCHIVE_SUFFIX)
      case None => false
      case Some(stem) => IsYearMonth(stem)
  }

  function YearMonth(year: int, month: nat): string {
    PaddedInt(year, 4) + "-" + Padded(month, 2)
  }

  function ArchiveName(year: int, month: nat): string {
    ARCHIVE_PREFIX + YearMonth(year, month) + ARCHIVE_SUFFIX
  }

  lemma NameByExample()
    ensures ArchiveName(2026, 9) == "audit-2026-09.zip"
  {
    assert Digits(2026) == Digits(202) + "6" && Digits(202) == Digits(20) + "2" && Digits(20) == "2" + "0";
    assert Zeros(1) == "0";
  }

  lemma {:induction false} ValueOfZeros(k: nat, s: string)
    requires AllDigits(s)
    ensures AllDigits(Zeros(k) + s) && Value(Zeros(k) + s) == Value(s)
  {
    var t := Zeros(k) + s;
    forall c | c in t ensures IsDigit(c) {
      if c !in s { assert c in Zeros(k); }
    }
    if s != "" {
      assert t[..|t| - 1] == Zeros(k) + s[..|s| - 1];
      ValueOfZeros(k, s[..|s| - 1]);
    } else if k > 0 {
      assert t == Zeros(k);
      assert t[..k - 1] == Zeros(k - 1) + "";
      ValueOfZeros(k - 1, "");
    }
  }

  lemma ValueOfPadded(n: nat, width: nat)
    ensures Value(Padded(n, width)) == n
  {
    ValueOfDigits(n);
    if |Digits(n)| < width { ValueOfZeros(width - |Digits(n)|, Digits(n)); }
  }

  lemma PaddedZero(k: nat)
    requires k > 0
    ensures Padded(0, k) == Zeros(k)
  {
    assert Digits(0) == "0";
  }

  lemma PaddedNext(v: nat, d: nat, k: nat)
    requires d < 10 && k > 0
    ensures Padded(10 * v + d, k + 1) == Padded(v, k) + [Digit(d)]
  {
    if v == 0 {
      PaddedZero(k);
      assert Digits(d) == [Digit(d)];
    } else {
      assert Digits(10 * v + d) == Digits(v) + [Digit(d)];
    }
  }

  /** Digits are the padded numeral of their value. */
  lemma {:induction false} PaddedOfValue(s: string)
    requires s != "" && AllDigits(s)
    ensures Padded(Value(s), |s|) == s
  {
    var k := |s| - 1;
    var d := s[k] as int - '0' as int;
    assert IsDigit(s[k]) && Digit(d) == s[k];
    if k == 0 {
      assert s[..0] == "" && Value(s) == d;
    } else {
      PaddedOfValue(s[..k]);
      PaddedNext(Value(s[..k]), d, k);
      assert s == s[..k] + [s[k]];
    }
  }

  lemma NameIsAnArchive(stem: string)
    ensures IsAuditArchive(ARCHIVE_PREFIX + stem + ARCHIVE_SUFFIX) <==> IsYearMonth(stem)
  {
    Affixes.StripsBack(ARCHIVE_PREFIX, stem + ARCHIVE_SUFFIX);
    Affixes.StripsBack(ARCHIVE_SUFFIX, stem);
    assert ARCHIVE_PREFIX + stem + ARCHIVE_SUFFIX == ARCHIVE_PREFIX + (stem + ARCHIVE_SUFFIX);
  }

  lemma TwoDigits(s: string)
    requires |s| == 2 && AllDigits(s)
    ensures Value(s) == 10 * (s[0] as int - '0' as int) + (s[1] as int - '0' as int)
  {
    assert IsDigit(s[0]) && IsDigit(s[1]);
    assert Value(s[..0]) == 0;
    assert s[..1][..0] == s[..0];
  }

  lemma PaddedWidth(n: nat, width: nat)
    requires width > 0
    ensures |Padded(n, width)| == width <==> n < Pow10(width)
    ensures |Padded(n, width)| >= width
  {
    DigitsLength(n, width);
  }

  lemma Powers()
    ensures Pow10(2) == 100 && Pow10(4) == 10000
  {
    assert Pow10(1) == 10;
    assert Pow10(3) == 1000;
  }

  lemma WhichYearMonths(year: int, month: nat)
    ensures IsYearMonth(YearMonth(year, month)) <==> 0 <= year <= 9999 && 1 <= month <= 12
  {
    var y, m := PaddedInt(year, 4), Padded(month, 2);
    var s := YearMonth(year, month);
    Powers();
    PaddedWidth(month, 2);
    if year >= 0 {
      PaddedWidth(year, 4);
      if |s| == 7 {
        assert s[..4] == y && s[5..] == m && s[4] == '-';
        TwoDigits(m);
        ValueOfPadded(month, 2);
        forall i | 0 <= i < 7 && i != 4 ensures IsDigit(s[i]) {
          assert s[i] in (if i < 4 then y else m);
        }
      }
    } else {
      assert s[0] == '-';
    }
  }

  /** A year and a month name an archive exactly when the year has four digits and the month is
      one: a longer or a negative year does not. */
  lemma ArchiveNamesAreRecognised(year: int, month: nat)
    ensures IsAuditArchive(ArchiveName(year, month)) <==> 0 <= year <= 9999 && 1 <= month <= 12
  {
    NameIsAnArchive(YearMonth(year, month));
    WhichYearMonths(year, month);
  }

  /** Nothing else is recognised: every such name is the archive of some month. */
  lemma OnlyArchiveNamesAreRecognised(filename: string)
    requires IsAuditArchive(filename)
    ensures exists year, month: nat :: 0 <= year <= 9999 && 1 <= month <= 12 && filename == ArchiveName(year, month)
  {
    var stem := Affixes.StripSuffix(Affixes.StripPrefix(filename, ARCHIVE_PREFIX).value, ARCHIVE_SUFFIX).value;
    var y, m := stem[..4], stem[5..];
    assert AllDigits(y) && AllDigits(m);
    PaddedOfValue(y);
    PaddedOfValue(m);
    assert stem == y + "-" + m;
    assert YearMonth(Value(y), Value(m)) == stem;
    assert filename == ArchiveName(Value(y), Value(m));
    NameIsAnArchive(stem);
    WhichYearMonths(Value(y), Value(m));
  }

  // ---- Fields ----

  /** Put a text in place of every occurrence of a character. */
  function Replace(s: string, c: char, t: string): string {
    if s == "" then "" else (if s[0] == c then t else [s[0]]) + Replace(s[1..], c, t)
  }

  function EscapeChar(c: char): string {
    if c == '\\' then "\\\\" else if c == '\t' then "\\t" else if c == '\n' then "\\n" else [c]
  }

  function Escape(s: string): string {
    if s == "" then "" else EscapeChar(s[0]) + Escape(s[1..])
  }

  /** Three passes over the whole text, backslashes first. */
  function EscapeInPasses(s: string): string {
    Replace(Replace(Replace(s, '\\', "\\\\"), '\t', "\\t"), '\n', "\\n")
  }

  function Unescape(s: string): string {
    if |s| < 2 then s
    else if s[0] == '\\' then
      (if s[1] == 't' then "\t" else if s[1] == 'n' then "\n" else [s[1]]) + Unescape(s[2..])
    else [s[0]] + Unescape(s[1..])
  }

  lemma {:induction false} ReplaceConcat(a: string, b: string, c: char, t: string)
    ensures Replace(a + b, c, t) == Replace(a, c, t) + Replace(b, c, t)
  {
    if a == "" {
      assert a + b == b;
    } else {
      var first := if a[0] == c then t else [a[0]];
      ReplaceConcat(a[1..], b, c, t);
      assert (a + b)[1..] == a[1..] + b;
      assert Replace(a + b, c, t) == first + Replace(a[1..] + b, c, t);
    }
  }

  lemma ReplaceOne(d: char, c: char, t: string)
    ensures Replace([d], c, t) == if d == c then t else [d]
  {
    assert [d][1..] == "";
  }

  lemma ReplaceTwo(d: char, e: char, c: char, t: string)
    requires d != c && e != c
    ensures Replace([d, e], c, t) == [d, e]
  {
    assert [d, e][1..] == [e];
    ReplaceOne(e, c, t);
  }

  lemma PassesOnOneChar(c: char)
    ensures EscapeInPasses([c]) == EscapeChar(c)
  {
    ReplaceOne(c, '\\', "\\\\");
    if c == '\\' {
      ReplaceTwo('\\', '\\', '\t', "\\t");
      ReplaceTwo('\\', '\\', '\n', "\\n");
    } else {
      ReplaceOne(c, '\t', "\\t");
      ReplaceOne(c, '\n', "\\n");
      ReplaceTwo('\\', 't', '\n', "\\n");
    }
  }

  /** What stands for a backslash, a tab and a newline. */
  lemma EscapesWrittenOut()
    ensures EscapeInPasses("\\") == ['\\', '\\']
    ensures EscapeInPasses("\t") == ['\\', 't'] && EscapeInPasses("\n") == ['\\', 'n']
    ensures forall c | c != '\\' && c != '\t' && c != '\n' :: EscapeInPasses([c]) == [c]
  {
    PassesOnOneChar('\\');
    PassesOnOneChar('\t');
    PassesOnOneChar('\n');
    forall c | c != '\\' && c != '\t' && c != '\n' ensures EscapeInPasses([c]) == [c] {
      PassesOnOneChar(c);
    }
  }

  /** The passes do not disturb each other: together they escape each character by itself. */
  lemma {:induction false} PassesEscape(s: string)
    ensures EscapeInPasses(s) == Escape(s)
  {
    if s != "" {
      var first, rest := [s[0]], s[1..];
      assert s == first + rest;
      PassesOnOneChar(s[0]);
      PassesEscape(rest);
      ReplaceConcat(first, rest, '\\', "\\\\");
      var a, b := Replace(first, '\\', "\\\\"), Replace(rest, '\\', "\\\\");
      ReplaceConcat(a, b, '\t', "\\t");
      ReplaceConcat(Replace(a, '\t', "\\t"), Replace(b, '\t', "\\t"), '\n', "\\n");
    }
  }

  lemma UnescapeFirst(c: char, rest: string)
    ensures Unescape(EscapeChar(c) + rest) == [c] + Unescape(rest)
  {
    var e := EscapeChar(c);
    var s := e + rest;
    assert s[|e|..] == rest;
    if |s| == 1 { assert rest == "" && Unescape(rest) == ""; }
  }

  lemma {:induction false} UnescapeInverts(s: string)
    ensures Unescape(Escape(s)) == s
  {
    if s != "" {
      UnescapeInverts(s[1..]);
      UnescapeFirst(s[0], Escape(s[1..]));
    }
  }

  lemma {:induction false} EscapedIsOneField(s: string)
    ensures '\t' !in Escape(s) && '\n' !in Escape(s)
  {
    if s != "" { EscapedIsOneField(s[1..]); }
  }

  function Field(s: Option<string>): string {
    if s == None || s == Some("") then "-" else EscapeInPasses(s.value)
  }

  /** What a field shows: absence and emptiness as a hyphen. */
  function Shown(s: Option<string>): string {
    if s == None || s == Some("") then "-" else s.value
  }

  /** A printed field gives back what it shows, and so two fields print alike exactly when they
      show the same: nothing is confused but absence, the empty text and a lone hyphen. */
  lemma FieldsAreFaithful(s: Option<string>, t: Option<string>)
    ensures Unescape(Field(s)) == Shown(s)
    ensures Field(s) == Field(t) <==> Shown(s) == Shown(t)
    ensures '\t' !in Field(s) && '\n' !in Field(s) && Field(s) != ""
  {
    FieldIsEscaped(s);
    FieldIsEscaped(t);
    UnescapeInverts(Shown(s));
    UnescapeInverts(Shown(t));
    EscapedIsOneField(Shown(s));
  }

  lemma FieldIsEscaped(s: Option<string>)
    ensures Field(s) == Escape(Shown(s))
  {
    if s == None || s == Some("") {
      assert Escape("-") == "-" + Escape("-"[1..]);
    } else {
      PassesEscape(s.value);
    }
  }

  // ---- Entries and lines ----

  datatype AuditEntry = AuditEntry(
    id: int, createdAt: string, actor: string, action: string, target: Option<string>, detail: Option<string>)

  function PrintInt(i: int): (s: string)
    ensures s != "" && '\t' !in s && '\n' !in s && s[0] != '#'
  {
    if i >= 0 then
      assert IsDigit(Digits(i)[0]);
      Digits(i)
    else
      "-" + Digits(-i)
  }

  function Columns(e: AuditEntry): (r: seq<string>)
    ensures |r| == 6
  {
    [PrintInt(e.id), e.createdAt, Field(Some(e.actor)), Field(Some(e.action)), Field(e.target), Field(e.detail)]
  }

  /** Texts with a character between each two. */
  function Join(parts: seq<string>, c: char): string {
    if parts == [] then "" else if |parts| == 1 then parts[0] else parts[0] + [c] + Join(parts[1..], c)
  }

  function FormatEntry(e: AuditEntry): string {
    Join(Columns(e), '\t')
  }

  function Split(s: string, c: char): (parts: seq<string>)
    ensures parts != []
    decreases |s|
  {
    var k := Sequences.PositionFrom(s, c, 0);
    if k == |s| then [s] else [s[..k]] + Split(s[k + 1..], c)
  }

  lemma SplitFirst(a: string, c: char, rest: string)
    requires c !in a
    ensures Split(a + [c] + rest, c) == [a] + Split(rest, c)
  {
    var s := a + [c] + rest;
    var k := Sequences.PositionFrom(s, c, 0);
    assert s[|a|] == c;
    assert k == |a| by {
      assert forall i | 0 <= i < |a| :: s[i] in a;
    }
    assert s[..k] == a && s[k + 1..] == rest;
  }

  /** Splitting gives back what was joined, as long as no part holds the separator. */
  lemma {:induction false} SplitInvertsJoin(parts: seq<string>, c: char)
    requires parts != [] && forall p | p in parts :: c !in p
    ensures Split(Join(parts, c), c) == parts
  {
    if |parts| == 1 {
      assert parts[0] in parts && parts == [parts[0]];
      assert Sequences.PositionFrom(parts[0], c, 0) == |parts[0]|;
    } else {
      SplitFirst(parts[0], c, Join(parts[1..], c));
      SplitInvertsJoin(parts[1..], c);
    }
  }

  lemma {:induction false} PartsHoldNoSeparator(s: string, c: char)
    ensures forall p | p in Split(s, c) :: c !in p
    decreases |s|
  {
    var k := Sequences.PositionFrom(s, c, 0);
    if k < |s| { PartsHoldNoSeparator(s[k + 1..], c); }
  }

  /** A line splits into the six columns of its entry, whatever its fields hold, exactly when the
      timestamp, which is printed as it is, has no tab. */
  lemma EntryIsSixColumns(e: AuditEntry)
    ensures Split(FormatEntry(e), '\t') == Columns(e) <==> '\t' !in e.createdAt
  {
    if '\t' in e.createdAt {
      PartsHoldNoSeparator(FormatEntry(e), '\t');
      assert Columns(e)[1] == e.createdAt;
    } else {
      FieldsAreFaithful(Some(e.actor), None);
      FieldsAreFaithful(Some(e.action), None);
      FieldsAreFaithful(e.target, None);
      FieldsAreFaithful(e.detail, None);
      SplitInvertsJoin(Columns(e), '\t');
    }
  }

  /** A field shows its text, or a hyphen for an absent or an empty one. */
  predicate Shows(column: string, field: Option<string>) {
    Unescape(column) == match field
                        case None => "-"
                        case Some(text) => if text == "" then "-" else text
  }

  lemma FieldShows(field: Option<string>)
    ensures Shows(Field(field), field)
  {
    FieldsAreFaithful(field, None);
  }

  /** The numeral of a number, after a minus if it is negative. */
  predicate Numbers(column: string, i: int) {
    if i >= 0 then AllDigits(column) && Value(column) == i
    else column != "" && column[0] == '-' && AllDigits(column[1..]) && Value(column[1..]) == -i
  }

  lemma PrintedNumbers(i: int)
    ensures Numbers(PrintInt(i), i)
  {
    ValueOfDigits(if i >= 0 then i else -i);
    if i < 0 { assert PrintInt(i)[1..] == Digits(-i); }
  }

  /** The columns of a line are the entry's id, timestamp, actor, action, target and detail, in
      this order. */
  lemma ColumnsGiveBack(e: AuditEntry)
    requires '\t' !in e.createdAt
    ensures var c := Split(FormatEntry(e), '\t');
            && |c| == 6
            && Numbers(c[0], e.id) && c[1] == e.createdAt
            && Shows(c[2], Some(e.actor)) && Shows(c[3], Some(e.action))
            && Shows(c[4], e.target) && Shows(c[5], e.detail)
  {
    EntryIsSixColumns(e);
    PrintedNumbers(e.id);
    FieldShows(Some(e.actor));
    FieldShows(Some(e.action));
    FieldShows(e.target);
    FieldShows(e.detail);
  }

  lemma {:induction false} JoinHolds(parts: seq<string>, c: char, d: char)
    requires d != c
    ensures d in Join(parts, c) <==> exists i :: 0 <= i < |parts| && d in parts[i]
  {
    if |parts| > 1 {
      JoinHolds(parts[1..], c, d);
      if i :| 0 <= i < |parts[1..]| && d in parts[1..][i] {
        assert d in parts[i + 1];
      }
      if i :| 0 < i < |parts| && d in parts[i] {
        assert d in parts[1..][i - 1];
      }
    }
  }

  /** An entry is one line exactly when its timestamp is. */
  lemma EntryIsOneLine(e: AuditEntry)
    ensures '\n' in FormatEntry(e) <==> '\n' in e.createdAt
  {
    FieldsAreFaithful(Some(e.actor), None);
    FieldsAreFaithful(Some(e.action), None);
    FieldsAreFaithful(e.target, None);
    FieldsAreFaithful(e.detail, None);
    JoinHolds(Columns(e), '\t', '\n');
    assert Columns(e)[1] == e.createdAt;
  }

  /** Lines with their line ends. */
  function Unlines(lines: seq<string>): string {
    if lines == [] then "" else lines[0] + "\n" + Unlines(lines[1..])
  }

  function WithoutReturn(line: string): string {
    if line != "" && line[|line| - 1] == '\r' then line[..|line| - 1] else line
  }

  /** A line ends at a newline, or a return and a newline; an unfinished last line counts. */
  function Lines(s: string): seq<string>
    decreases |s|
  {
    if s == "" then []
    else
      var k := Sequences.PositionFrom(s, '\n', 0);
      if k == |s| then [s] else [WithoutReturn(s[..k])] + Lines(s[k + 1..])
  }

  lemma LinesFirst(line: string, rest: string)
    requires '\n' !in line
    ensures Lines(line + "\n" + rest) == [WithoutReturn(line)] + Lines(rest)
  {
    var s := line + "\n" + rest;
    var k := Sequences.PositionFrom(s, '\n', 0);
    assert s[|line|] == '\n';
    assert k == |line| by {
      assert forall i | 0 <= i < |line| :: s[i] in line;
    }
    assert s[..k] == line && s[k + 1..] == rest;
  }

  /** A newline ends a line, with the return before it if there is one; a last line needs none. */
  lemma LinesWrittenOut(line: string, rest: string)
    requires '\n' !in line
    ensures Lines((line + "\r") + "\n" + rest) == [line] + Lines(rest)
    ensures line == "" || line[|line| - 1] != '\r' ==> Lines(line + "\n" + rest) == [line] + Lines(rest)
    ensures Lines("") == [] && (line != "" ==> Lines(line) == [line])
  {
    LinesFirst(line, rest);
    LinesFirst(line + "\r", rest);
    ReturnIsDropped(line);
    if line != "" { assert Sequences.PositionFrom(line, '\n', 0) == |line|; }
  }

  lemma ReturnIsDropped(line: string)
    ensures WithoutReturn(line + "\r") == line
  {
    assert (line + "\r")[..|line|] == line;
  }

  function Formatted(entries: seq<AuditEntry>): seq<string> {
    seq(|entries|, i requires 0 <= i < |entries| => FormatEntry(entries[i]))
  }

  lemma {:induction false} SplitInvertsUnlines(lines: seq<string>)
    requires forall l | l in lines :: '\n' !in l
    ensures Split(Unlines(lines), '\n') == lines + [""]
  {
    if lines == [] {
      assert Sequences.PositionFrom("", '\n', 0) == 0;
    } else {
      SplitFirst(lines[0], '\n', Unlines(lines[1..]));
      SplitInvertsUnlines(lines[1..]);
    }
  }

  /** A body falls apart into exactly the lines of its entries, exactly when no timestamp holds a
      newline: no field can make one entry two. */
  lemma BodyIsOneLineEach(entries: seq<AuditEntry>)
    ensures Split(Unlines(Formatted(entries)), '\n') == Formatted(entries) + [""]
       <==> forall e | e in entries :: '\n' !in e.createdAt
  {
    var lines := Formatted(entries);
    forall i | 0 <= i < |entries| ensures '\n' in lines[i] <==> '\n' in entries[i].createdAt {
      EntryIsOneLine(entries[i]);
    }
    if forall e | e in entries :: '\n' !in e.createdAt {
      SplitInvertsUnlines(lines);
    } else {
      PartsHoldNoSeparator(Unlines(lines), '\n');
      var i :| 0 <= i < |entries| && '\n' in entries[i].createdAt;
      assert (lines + [""])[i] == lines[i];
    }
  }

  /** The writer's output for a batch, entry after entry. */
  method WriteBatch(entries: seq<AuditEntry>) returns (body: string, written: nat)
    ensures body == Unlines(Formatted(entries)) && written == |entries|
  {
    ghost var lines := Formatted(entries);
    body, written := "", 0;
    var i := 0;
    while i < |entries|
      invariant 0 <= i <= |entries| && written == i
      invariant body == Unlines(lines[..i])
    {
      var line := FormatEntry(entries[i]);
      assert lines[i] == line;
      UnlinesNext(lines[..i], line);
      assert lines[..i + 1] == lines[..i] + [line];
      body := body + line + "\n";
      written := written + 1;
      i := i + 1;
    }
    assert lines[..i] == lines;
  }

  lemma {:induction false} UnlinesNext(lines: seq<string>, line: string)
    ensures Unlines(lines + [line]) == Unlines(lines) + line + "\n"
  {
    if lines == [] {
      assert [line][1..] == [];
    } else {
      UnlinesNext(lines[1..], line);
      assert (lines + [line])[1..] == lines[1..] + [line];
    }
  }
}
