/**
  The file names of segments (cpp/core/JsonlSegmentStore.cpp:72-100 and 268-272): a segment id and
  its file name determine each other, and a leftover temporary file is never taken for a segment.
 */
module SegmentNames {
  import opened Wrappers

  const SEGMENT_PREFIX: string := "segment-"
  const SEGMENT_SUFFIX: string := ".jsonl"
  const TEMPORARY_MARKER: string := ".jsonl.tmp."
  const MAX_ID: nat := 0xFFFF_FFFF

  function DigitChar(d: nat): (c: char)
    requires d < 10
    ensures '0' <= c <= '9' && c as int - '0' as int == d
  {
    '0' + d as char
  }

  predicate IsDigit(c: char) {
    '0' <= c <= '9'
  }

  predicate AllDigits(s: string) {
    forall i :: 0 <= i < |s| ==> IsDigit(s[i])
  }

  function Decimal(n: nat): (s: string)
    ensures s != [] && AllDigits(s)
  {
    if n < 10 then [DigitChar(n)] else Decimal(n / 10) + [DigitChar(n % 10)]
  }

  function Zeros(n: nat): (s: string)
    ensures |s| == n && forall i :: 0 <= i < n ==> s[i] == '0'
  {
    if n == 0 then "" else Zeros(n - 1) + "0"
  }

  /** At least eight digits, as the format asks for. */
  function Padded(n: nat): (s: string)
    ensures s != [] && AllDigits(s)
  {
    var digits := Decimal(n);
    if |digits| < 8 then Zeros(8 - |digits|) + digits else digits
  }

  function NumberOf(s: string): nat
    requires AllDigits(s)
  {
    if s == [] then 0 else 10 * NumberOf(s[..|s| - 1]) + (s[|s| - 1] as int - '0' as int)
  }

  function SegmentName(id: nat): string {
    SEGMENT_PREFIX + Padded(id) + SEGMENT_SUFFIX
  }

  predicate EndsWith(name: string, suffix: string) {
    |suffix| <= |name| && name[|name| - |suffix|..] == suffix
  }

  function ParseSegmentId(name: string): (id: Option<nat>)
    ensures id.Some? ==> id.value < 0x1_0000_0000
  {
    var p, s := |SEGMENT_PREFIX|, |SEGMENT_SUFFIX|;
    if |name| <= p + s || !(SEGMENT_PREFIX <= name) || !EndsWith(name, SEGMENT_SUFFIX) then None
    else
      var digits := name[p..|name| - s];
      if digits == "" || |digits| > 10 || !AllDigits(digits) then None
      else if NumberOf(digits) > MAX_ID then None
      else Some(NumberOf(digits))
  }

  lemma {:induction false} NumberOfDecimal(n: nat)
    ensures NumberOf(Decimal(n)) == n
    decreases n
  {
    if n >= 10 {
      var s := Decimal(n);
      NumberOfDecimal(n / 10);
      assert s[..|s| - 1] == Decimal(n / 10);
    } else {
      assert Decimal(n)[..0] == [];
    }
  }

  lemma {:induction false} LeadingZeros(n: nat, s: string)
    requires AllDigits(s)
    ensures AllDigits(Zeros(n) + s) && NumberOf(Zeros(n) + s) == NumberOf(s)
    decreases n, |s|
  {
    var all := Zeros(n) + s;
    if s != [] {
      LeadingZeros(n, s[..|s| - 1]);
      assert all[..|all| - 1] == Zeros(n) + s[..|s| - 1];
    } else if n > 0 {
      LeadingZeros(n - 1, []);
      assert all[..|all| - 1] == Zeros(n - 1) + [];
      assert all[|all| - 1] == '0';
    }
  }

  function PowerOfTen(k: nat): nat {
    if k == 0 then 1 else 10 * PowerOfTen(k - 1)
  }

  lemma {:induction false} DecimalLength(n: nat, k: nat)
    requires 1 <= k && n < PowerOfTen(k)
    ensures |Decimal(n)| <= k
    decreases k
  {
    if n >= 10 {
      assert n / 10 < PowerOfTen(k - 1);
      assert k > 1;
      DecimalLength(n / 10, k - 1);
    }
  }

  /** The id of a segment's file name is the segment: no two segments share a file. */
  lemma ParseInvertsName(id: nat)
    requires id < 0x1_0000_0000
    ensures ParseSegmentId(SegmentName(id)) == Some(id)
  {
    var name, digits := SegmentName(id), Padded(id);
    assert id < PowerOfTen(10) by {
      assert PowerOfTen(10) == 10_000_000_000;
    }
    DecimalLength(id, 10);
    NumberOfDecimal(id);
    LeadingZeros(if |Decimal(id)| < 8 then 8 - |Decimal(id)| else 0, Decimal(id));
    assert NumberOf(digits) == id;
    assert name[|SEGMENT_PREFIX|..|name| - |SEGMENT_SUFFIX|] == digits;
    assert name[|name| - |SEGMENT_SUFFIX|..] == SEGMENT_SUFFIX;
    assert name[..|SEGMENT_PREFIX|] == SEGMENT_PREFIX;
  }

  lemma NamesAreDistinct(a: nat, b: nat)
    requires a < 0x1_0000_0000 && b < 0x1_0000_0000 && a != b
    ensures SegmentName(a) != SegmentName(b)
  {
    ParseInvertsName(a);
    ParseInvertsName(b);
  }

  /** Where the marker of a temporary file first occurs at or after `start`. */
  function FindMarker(name: string, start: nat): (position: Option<nat>)
    ensures position.Some? ==> start <= position.value && MarkedAt(name, position.value)
    ensures position.Some? ==> forall j :: start <= j < position.value ==> !MarkedAt(name, j)
    ensures position.None? ==> forall j :: start <= j ==> !MarkedAt(name, j)
    decreases |name| - start
  {
    if start + |TEMPORARY_MARKER| > |name| then None
    else if MarkedAt(name, start) then Some(start)
    else FindMarker(name, start + 1)
  }

  predicate MarkedAt(name: string, position: nat) {
    position + |TEMPORARY_MARKER| <= |name| && name[position..position + |TEMPORARY_MARKER|] == TEMPORARY_MARKER
  }

  /** A leftover of an interrupted write to a segment file, which loading removes. */
  predicate IsStaleTemporarySegment(name: string) {
    var position := FindMarker(name, 0);
    && position.Some?
    && position.value + |TEMPORARY_MARKER| < |name|
    && ParseSegmentId(name[..position.value + |SEGMENT_SUFFIX|]).Some?
  }

  /** A name with a temporary marker in it is not the name of a segment. */
  lemma TemporaryIsNoSegment(name: string, position: nat)
    requires MarkedAt(name, position)
    ensures ParseSegmentId(name) == None
  {
    if ParseSegmentId(name).Some? {
      var p, s := |SEGMENT_PREFIX|, |SEGMENT_SUFFIX|;
      var digits := name[p..|name| - s];
      assert name[..p] == SEGMENT_PREFIX;
      DotIsNoDigit(name, position, digits);
    }
  }

  /** The dot of the marker would have to be a digit or part of the prefix. */
  lemma DotIsNoDigit(name: string, position: nat, digits: string)
    requires MarkedAt(name, position)
    requires |name| > |SEGMENT_PREFIX| + |SEGMENT_SUFFIX| && name[..|SEGMENT_PREFIX|] == SEGMENT_PREFIX
    requires digits == name[|SEGMENT_PREFIX|..|name| - |SEGMENT_SUFFIX|]
    ensures !AllDigits(digits)
  {
    assert name[position] == name[position..position + |TEMPORARY_MARKER|][0] == '.';
    assert forall i :: 0 <= i < |SEGMENT_PREFIX| ==> name[i] == SEGMENT_PREFIX[i] && SEGMENT_PREFIX[i] != '.';
    assert position >= |SEGMENT_PREFIX|;
    assert digits[position - |SEGMENT_PREFIX|] == '.';
  }

  /**
    Loading removes exactly the names that are a segment's name, ".tmp." and something behind it, as the
    file adapter makes them, and it never takes one of them for a segment.
   */
  lemma StaleTemporaryIff(segment: string, rest: string)
    requires ParseSegmentId(segment).Some?
    ensures IsStaleTemporarySegment(segment + ".tmp." + rest) <==> rest != ""
    ensures ParseSegmentId(segment + ".tmp." + rest) == None
  {
    var name, position := segment + ".tmp." + rest, |segment| - |SEGMENT_SUFFIX|;
    assert segment[position..] == SEGMENT_SUFFIX && SEGMENT_SUFFIX + ".tmp." == TEMPORARY_MARKER;
    assert name == segment[..position] + TEMPORARY_MARKER + rest;
    assert MarkedAt(name, position);
    TemporaryIsNoSegment(name, position);
    FirstMarker(segment, name, position);
    assert name[..position + |SEGMENT_SUFFIX|] == segment;
  }

  /** The only dot of a segment's name starts its suffix, so no marker comes earlier. */
  lemma FirstMarker(segment: string, name: string, position: nat)
    requires ParseSegmentId(segment).Some? && position == |segment| - |SEGMENT_SUFFIX| && segment <= name
    requires MarkedAt(name, position)
    ensures FindMarker(name, 0) == Some(position)
  {
    forall j | 0 <= j < position
      ensures !MarkedAt(name, j)
    {
      NoDotBefore(segment, j);
      NoMarkerWithoutDot(name, j);
    }
    hide MarkedAt, FindMarker, ParseSegmentId;
    var found := FindMarker(name, 0);
    assert found.Some? && !(found.value < position) && !(position < found.value);
  }

  lemma NoDotBefore(segment: string, j: nat)
    requires ParseSegmentId(segment).Some? && j + |SEGMENT_SUFFIX| < |segment|
    ensures segment[j] != '.'
  {
    var p := |SEGMENT_PREFIX|;
    var digits := segment[p..|segment| - |SEGMENT_SUFFIX|];
    if j >= p {
      assert digits[j - p] == segment[j] && IsDigit(digits[j - p]);
    } else {
      assert segment[..p][j] == segment[j] == SEGMENT_PREFIX[j];
    }
  }

  lemma NoMarkerWithoutDot(name: string, j: nat)
    requires j < |name| && name[j] != '.'
    ensures !MarkedAt(name, j)
  {
    if j + |TEMPORARY_MARKER| <= |name| {
      assert name[j..j + |TEMPORARY_MARKER|][0] == name[j] != TEMPORARY_MARKER[0];
    }
  }

  /** Every stale name has this form. */
  lemma StaleTemporaryForm(name: string)
    requires IsStaleTemporarySegment(name)
    ensures exists segment, rest :: ParseSegmentId(segment).Some? && rest != "" && name == segment + ".tmp." + rest
  {
    var position := FindMarker(name, 0).value;
    var segment, rest := name[..position + |SEGMENT_SUFFIX|], name[position + |TEMPORARY_MARKER|..];
    assert name == name[..position] + TEMPORARY_MARKER + rest;
    assert TEMPORARY_MARKER == SEGMENT_SUFFIX + ".tmp.";
    assert name == segment + ".tmp." + rest;
  }

  lemma OneMoreDigit(n: nat, digit: nat)
    requires n > 0 && digit < 10
    ensures Decimal(10 * n + digit) == Decimal(n) + [DigitChar(digit)]
  {
  }

  /** A name as it is on disk: eight digits. */
  lemma NameInText()
    ensures SegmentName(42) == "segment-" + "00000042" + ".jsonl"
  {
    assert Decimal(4) == ['4'];
    OneMoreDigit(4, 2);
    hide Decimal;
    assert Decimal(42) == ['4', '2'];
    assert Zeros(2) == ['0', '0'] && Zeros(4) == ['0', '0', '0', '0'];
    assert Zeros(6) == ['0', '0', '0', '0', '0', '0'];
    hide Zeros;
  }

  /** An id that needs more than eight digits has them all. */
  lemma LongNameInText()
    ensures SegmentName(123456789) == "segment-" + "123456789" + ".jsonl"
  {
    assert Decimal(1) == ['1'];
    hide Decimal;
    OneMoreDigit(1, 2);
    OneMoreDigit(12, 3);
    OneMoreDigit(123, 4);
    OneMoreDigit(1234, 5);
    OneMoreDigit(12345, 6);
    OneMoreDigit(123456, 7);
    OneMoreDigit(1234567, 8);
    OneMoreDigit(12345678, 9);
    assert Decimal(1234) == ['1', '2', '3', '4'];
    assert Decimal(12345678) == ['1', '2', '3', '4', '5', '6', '7', '8'];
  }
}
