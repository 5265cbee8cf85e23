/** Node names for MeshCore adverts: the byte budget, validation and truncation.

  A name is a text; what goes on the air is its UTF-8 encoding (section 3 of RFC 3629), and the
  budgets count its bytes. Which codepoints are in the Unicode category Format is a parameter.
*/
module MeshName {
  import opened Bytes
  import opened Utf8
  import opened Wrappers

  const LOCATION_ADVERT_BYTES := 8
  const MAX_MESH_NODE_NAME_BYTES := 31
  const MAX_MESH_NODE_NAME_BYTES_WITH_LOCATION := MAX_MESH_NODE_NAME_BYTES - LOCATION_ADVERT_BYTES

  /** What fits beside the flags and, if shared, the location. */
  function MaxNameBytes(sharingLocation: bool): (max: nat)
    ensures 1 + (if sharingLocation then 8 else 0) + max == 32
  {
    if sharingLocation then MAX_MESH_NODE_NAME_BYTES_WITH_LOCATION else MAX_MESH_NODE_NAME_BYTES
  }

  // ---- Stripping ----

  /** Drop the codepoints that can spoof what is displayed. */
  function Strip(s: string, isFormat: char -> bool): string {
    if s == "" then "" else (if isFormat(s[0]) then "" else [s[0]]) + Strip(s[1..], isFormat)
  }

  predicate NoFormat(s: string, isFormat: char -> bool) {
    forall c | c in s :: !isFormat(c)
  }

  lemma {:induction false} StripRemovesFormat(s: string, isFormat: char -> bool)
    ensures NoFormat(Strip(s, isFormat), isFormat)
    ensures forall c :: c in Strip(s, isFormat) <==> c in s && !isFormat(c)
  {
    if s != "" {
      StripRemovesFormat(s[1..], isFormat);
      assert s == [s[0]] + s[1..];
    }
  }

  lemma {:induction false} StripKeepsTheRest(s: string, isFormat: char -> bool)
    requires NoFormat(s, isFormat)
    ensures Strip(s, isFormat) == s
  {
    if s != "" { StripKeepsTheRest(s[1..], isFormat); }
  }

  /** Every codepoint is kept or dropped by itself, wherever it stands. */
  lemma {:induction false} StripConcat(a: string, b: string, isFormat: char -> bool)
    ensures Strip(a + b, isFormat) == Strip(a, isFormat) + Strip(b, isFormat)
  {
    if a == "" {
      assert a + b == b;
    } else {
      var first, rest := if isFormat(a[0]) then "" else [a[0]], a[1..];
      var x, y := Strip(rest, isFormat), Strip(b, isFormat);
      calc {
        Strip(a + b, isFormat);
        { assert (a + b)[1..] == rest + b; }
        first + Strip(rest + b, isFormat);
        { StripConcat(rest, b, isFormat); }
        first + (x + y);
        (first + x) + y;
      }
    }
  }

  // ---- Truncation ----

  /** How many codepoints fit the budget. */
  function FitCount(s: string, max: nat): (n: nat)
    ensures n <= |s|
  {
    if s == "" || |EncodeChar(s[0])| > max then 0 else 1 + FitCount(s[1..], max - |EncodeChar(s[0])|)
  }

  /** The prefix fits, and no longer one does. */
  lemma {:induction false} FitIsLongest(s: string, max: nat)
    ensures |Encode(s[..FitCount(s, max)])| <= max
    ensures forall k | FitCount(s, max) < k <= |s| :: |Encode(s[..k])| > max
  {
    var n := FitCount(s, max);
    if n > 0 {
      FitIsLongest(s[1..], max - |EncodeChar(s[0])|);
      EncodeFirst(s, n);
    }
    forall k | n < k <= |s| ensures |Encode(s[..k])| > max {
      EncodeFirst(s, k);
    }
  }

  lemma FitIsUnique(s: string, max: nat, n: nat)
    requires n <= |s| && |Encode(s[..n])| <= max
    requires n < |s| ==> |Encode(s[..n + 1])| > max
    ensures FitCount(s, max) == n
  {
    FitIsLongest(s, max);
    var f := FitCount(s, max);
    if n < f {
      LongerOrEqual(s, n + 1, f);
    }
  }

  function Truncated(s: string, isFormat: char -> bool, sharingLocation: bool): string {
    var cleaned := Strip(s, isFormat);
    cleaned[..FitCount(cleaned, MaxNameBytes(sharingLocation))]
  }

  /** The name as sent: the whole stripped name if it fits, else cut at the last codepoint
      boundary within the budget. */
  method TruncateMeshNodeName(s: string, isFormat: char -> bool, sharingLocation: bool) returns (name: seq<byte>)
    ensures name == Encode(Truncated(s, isFormat, sharingLocation))
    ensures 1 + (if sharingLocation then 8 else 0) + |name| <= 32
  {
    ghost var text := Strip(s, isFormat);
    var cleaned := Encode(Strip(s, isFormat));
    var max := MaxNameBytes(sharingLocation);
    FitIsLongest(text, max);
    ghost var n := FitCount(text, max);
    if |cleaned| <= max {
      assert text[..|text|] == text;
      FitIsUnique(text, max, |text|);
      return cleaned;
    }
    var end := max;
    EncodePrefix(text, n);
    BoundariesAreWhole(text, |Encode(text[..n])|);
    while end > 0 && !IsCharBoundary(cleaned, end)
      invariant |Encode(text[..n])| <= end <= max
    {
      end := end - 1;
    }
    BoundariesAreWhole(text, end);
    ghost var k :| 0 <= k <= |text| && end == |Encode(text[..k])|;
    assert k <= n;
    if k < n { LongerPrefixIsLonger(text, k, n); }
    return cleaned[..end];
  }

  /** The result is a prefix of the stripped name, fits, has no Format codepoint, and no longer
      prefix of the stripped name fits. */
  lemma TruncatedIsLongest(s: string, isFormat: char -> bool, sharingLocation: bool)
    ensures var r := Truncated(s, isFormat, sharingLocation);
            var cleaned := Strip(s, isFormat);
            && r <= cleaned
            && |Encode(r)| <= MaxNameBytes(sharingLocation)
            && NoFormat(r, isFormat)
            && forall longer | r < longer <= cleaned :: |Encode(longer)| > MaxNameBytes(sharingLocation)
  {
    var cleaned := Strip(s, isFormat);
    FitIsLongest(cleaned, MaxNameBytes(sharingLocation));
    StripRemovesFormat(s, isFormat);
    forall longer | Truncated(s, isFormat, sharingLocation) < longer <= cleaned
      ensures |Encode(longer)| > MaxNameBytes(sharingLocation)
    {
      assert longer == cleaned[..|longer|];
    }
  }

  /** A name that fits and has no Format codepoint is sent as it is. */
  lemma FittingNamesAreKept(s: string, isFormat: char -> bool, sharingLocation: bool)
    requires NoFormat(s, isFormat) && |Encode(s)| <= MaxNameBytes(sharingLocation)
    ensures Truncated(s, isFormat, sharingLocation) == s
  {
    StripKeepsTheRest(s, isFormat);
    assert s[..|s|] == s;
    FitIsUnique(s, MaxNameBytes(sharingLocation), |s|);
  }

  lemma TruncationIsIdempotent(s: string, isFormat: char -> bool, sharingLocation: bool)
    ensures var r := Truncated(s, isFormat, sharingLocation); Truncated(r, isFormat, sharingLocation) == r
  {
    TruncatedIsLongest(s, isFormat, sharingLocation);
    FittingNamesAreKept(Truncated(s, isFormat, sharingLocation), isFormat, sharingLocation);
  }

  /** The copy kept since startup, cut to the looser budget, still truncates to the tighter one
      as the configured name itself does: nothing is lost by caching it. */
  lemma CachedNameTruncatesAlike(s: string, isFormat: char -> bool, sharingLocation: bool)
    ensures var cached := Truncated(s, isFormat, false);
            Truncated(cached, isFormat, sharingLocation) == Truncated(s, isFormat, sharingLocation)
  {
    var cached := Truncated(s, isFormat, false);
    var cleaned := Strip(s, isFormat);
    var max := MaxNameBytes(sharingLocation);
    TruncatedIsLongest(s, isFormat, false);
    StripKeepsTheRest(cached, isFormat);
    FitIsLongest(cleaned, max);
    FitIsLongest(cleaned, MaxNameBytes(false));
    var n, m := FitCount(cleaned, max), FitCount(cleaned, MaxNameBytes(false));
    assert n <= m;
    assert cached[..n] == cleaned[..n];
    if n < m { assert cached[..n + 1] == cleaned[..n + 1]; }
    FitIsUnique(cached, max, n);
  }

  // ---- Validation ----

  datatype InvalidNodeName = Empty | TooLong(actual: nat, max: nat, sharingLocation: bool) | ControlCharacter(c: char)

  /** The Unicode category Control. */
  predicate IsControl(c: char) {
    (c as int) < 0x20 || 0x7F <= (c as int) < 0xA0
  }

  function FirstControl(s: string): (r: Option<char>)
    ensures r.None? ==> forall c | c in s :: !IsControl(c)
    ensures r.Some? ==>
      exists i :: 0 <= i < |s| && s[i] == r.value && IsControl(s[i]) && forall j | 0 <= j < i :: !IsControl(s[j])
  {
    if s == "" then None
    else if IsControl(s[0]) then Some(s[0])
    else
      var r := FirstControl(s[1..]);
      assert forall i | 0 < i < |s| :: s[i] == s[1..][i - 1];
      r
  }

  function ValidateMeshNodeName(s: string, sharingLocation: bool): (r: Result<(), InvalidNodeName>)
    ensures r == Err(Empty) <==> s == ""
    ensures r.Err? && r.error.TooLong? <==> |Encode(s)| > MaxNameBytes(sharingLocation)
    ensures r.Err? && r.error.TooLong? ==>
      r.error == TooLong(|Encode(s)|, MaxNameBytes(sharingLocation), sharingLocation)
    ensures r.Err? && r.error.ControlCharacter? ==>
      exists i :: 0 <= i < |s| && s[i] == r.error.c && IsControl(s[i]) && forall j | 0 <= j < i :: !IsControl(s[j])
    ensures r.Ok? <==>
      && s != "" && |Encode(s)| <= MaxNameBytes(sharingLocation)
      && forall c | c in s :: 0x20 <= c as int <= 0x7E || 0xA0 <= c as int
  {
    if s == "" then Err(Empty)
    else if |Encode(s)| > MaxNameBytes(sharingLocation) then
      Err(TooLong(|Encode(s)|, MaxNameBytes(sharingLocation), sharingLocation))
    else match FirstControl(s)
      case Some(c) =>
        assert c in s;
        Err(ControlCharacter(c))
      case None => Ok(())
  }

  /** What goes on the air is never too long, and empty only if the name had nothing to show. */
  lemma TruncatedValidates(s: string, isFormat: char -> bool, sharingLocation: bool)
    ensures var r := ValidateMeshNodeName(Truncated(s, isFormat, sharingLocation), sharingLocation);
            && (r.Err? ==> !r.error.TooLong?)
            && (r == Err(Empty) <==> forall c | c in s :: isFormat(c))
            && (ValidateMeshNodeName(s, sharingLocation).Ok? && NoFormat(s, isFormat) ==> r.Ok?)
  {
    TruncatedIsLongest(s, isFormat, sharingLocation);
    StripRemovesFormat(s, isFormat);
    var cleaned := Strip(s, isFormat);
    if cleaned != "" {
      assert cleaned[0] in cleaned;
      assert FitCount(cleaned, MaxNameBytes(sharingLocation)) > 0;
    }
    if ValidateMeshNodeName(s, sharingLocation).Ok? && NoFormat(s, isFormat) {
      FittingNamesAreKept(s, isFormat, sharingLocation);
    }
  }
}
