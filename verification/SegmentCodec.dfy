/**
  The line format of a segment file (cpp/core/JsonlSegmentStore.cpp:13-108).

  A record is one line: the escaped key, a tab, the escaped value, a newline. A deletion is a
  record whose key is the reserved tombstone key and whose value is the deleted key. Bytes after
  the last newline are a torn tail and belong to no record.
 */
module SegmentCodec {
  import opened Wrappers

  newtype byte = x: int | 0 <= x < 0x100

  type Bytes = seq<byte>

  const BACKSLASH: byte := 92
  const TAB: byte := 9
  const NEWLINE: byte := 10
  const RETURN: byte := 13
  const LETTER_T: byte := 116
  const LETTER_N: byte := 110
  const LETTER_R: byte := 114

  /** The reserved key: 0x7f followed by the letters DEL. */
  const TOMBSTONE_KEY: Bytes := [0x7f, 68, 69, 76]

  // ---------------------------------------------------------------- escaping

  function EscapeByte(b: byte): Bytes {
    if b == BACKSLASH then [BACKSLASH, BACKSLASH]
    else if b == TAB then [BACKSLASH, LETTER_T]
    else if b == NEWLINE then [BACKSLASH, LETTER_N]
    else if b == RETURN then [BACKSLASH, LETTER_R]
    else [b]
  }

  function Escape(s: Bytes): Bytes {
    if s == [] then [] else EscapeByte(s[0]) + Escape(s[1..])
  }

  /** The byte an escape letter stands for, if it is one. */
  function UnescapeLetter(b: byte): Option<byte> {
    if b == BACKSLASH then Some(BACKSLASH)
    else if b == LETTER_T then Some(TAB)
    else if b == LETTER_N then Some(NEWLINE)
    else if b == LETTER_R then Some(RETURN)
    else None
  }

  function Prepend(b: byte, rest: Option<Bytes>): Option<Bytes> {
    match rest
    case None => None
    case Some(s) => Some([b] + s)
  }

  function Unescape(s: Bytes): Option<Bytes> {
    if s == [] then Some([])
    else if s[0] != BACKSLASH then Prepend(s[0], Unescape(s[1..]))
    else if |s| == 1 || UnescapeLetter(s[1]).None? then None
    else Prepend(UnescapeLetter(s[1]).value, Unescape(s[2..]))
  }

  lemma UnescapeHead(b: byte, rest: Bytes)
    ensures Unescape(EscapeByte(b) + rest) == Prepend(b, Unescape(rest))
  {
    var head := EscapeByte(b);
    assert (head + rest)[|head|..] == rest;
  }

  lemma {:induction false} UnescapeInvertsEscape(s: Bytes)
    ensures Unescape(Escape(s)) == Some(s)
  {
    if s != [] {
      UnescapeInvertsEscape(s[1..]);
      var head, rest := EscapeByte(s[0]), Escape(s[1..]);
      UnescapeHead(s[0], rest);
      assert [s[0]] + s[1..] == s;
    }
  }

  lemma {:induction false} EscapeHidesSeparators(s: Bytes)
    ensures TAB !in Escape(s) && NEWLINE !in Escape(s) && RETURN !in Escape(s)
  {
    if s != [] {
      EscapeHidesSeparators(s[1..]);
    }
  }

  /** Appends the escaped form of `value` to `prefix`. */
  method EscapeInto(value: Bytes, prefix: Bytes) returns (out: Bytes)
    ensures out == prefix + Escape(value)
  {
    out := prefix;
    for i := 0 to |value|
      invariant out + Escape(value[i..]) == prefix + Escape(value)
    {
      ghost var rest := value[i..];
      assert rest[0] == value[i] && rest[1..] == value[i + 1..];
      var before := out;
      out := out + EscapeByte(value[i]);
      assert out + Escape(value[i + 1..]) == before + Escape(rest);
    }
  }

  function Join(out: Bytes, rest: Option<Bytes>): Option<Bytes> {
    match rest
    case None => None
    case Some(s) => Some(out + s)
  }

  lemma JoinPrepend(out: Bytes, b: byte, rest: Option<Bytes>)
    ensures Join(out, Prepend(b, rest)) == Join(out + [b], rest)
  {
    if rest.Some? {
      assert out + ([b] + rest.value) == out + [b] + rest.value;
    }
  }

  /** Undoes the escaping, or reports a backslash that starts no escape. */
  method UnescapeInto(value: Bytes) returns (result: Option<Bytes>)
    ensures result == Unescape(value)
  {
    var out: Bytes := [];
    var i := 0;
    assert value[0..] == value;
    assert Join([], Unescape(value)) == Unescape(value) by {
      if Unescape(value).Some? {
        assert [] + Unescape(value).value == Unescape(value).value;
      }
    }
    while i < |value|
      invariant 0 <= i <= |value|
      invariant Join(out, Unescape(value[i..])) == Unescape(value)
    {
      ghost var rest := value[i..];
      var c := value[i];
      if c != BACKSLASH {
        assert rest[1..] == value[i + 1..];
        JoinPrepend(out, c, Unescape(value[i + 1..]));
        out := out + [c];
        i := i + 1;
      } else {
        if i + 1 >= |value| {
          return None;
        }
        assert rest[1] == value[i + 1];
        var letter := UnescapeLetter(value[i + 1]);
        if letter.None? {
          return None;
        }
        assert rest[2..] == value[i + 2..];
        JoinPrepend(out, letter.value, Unescape(value[i + 2..]));
        out := out + [letter.value];
        i := i + 2;
      }
    }
    assert value[i..] == [] && out + [] == out;
    return Some(out);
  }

  // ------------------------------------------------------------------- lines

  /** The first position at or after `from` holding `b`; the length stands for "not found". */
  function Find(c: Bytes, b: byte, from: nat): (i: nat)
    requires from <= |c|
    ensures from <= i <= |c|
    ensures i < |c| ==> c[i] == b
    ensures forall j :: from <= j < i ==> c[j] != b
    decreases |c| - from
  {
    if from == |c| || c[from] == b then from else Find(c, b, from + 1)
  }

  lemma FindIs(c: Bytes, b: byte, from: nat, i: nat)
    requires from <= i <= |c|
    requires i < |c| ==> c[i] == b
    requires forall j :: from <= j < i ==> c[j] != b
    ensures Find(c, b, from) == i
  {
  }

  /** One past the last newline, or 0 when there is none. */
  function CompletePrefixLength(c: Bytes): (n: nat)
    ensures n <= |c|
    ensures n > 0 ==> c[n - 1] == NEWLINE
    ensures forall j :: n <= j < |c| ==> c[j] != NEWLINE
  {
    if c == [] then 0
    else if c[|c| - 1] == NEWLINE then |c|
    else CompletePrefixLength(c[..|c| - 1])
  }

  /** Content with no torn tail. */
  predicate Complete(c: Bytes) {
    c == [] || c[|c| - 1] == NEWLINE
  }

  /** One whole line: a single newline, at the end. */
  predicate IsLine(line: Bytes) {
    && line != []
    && line[|line| - 1] == NEWLINE
    && forall j :: 0 <= j < |line| - 1 ==> line[j] != NEWLINE
  }

  /** What a line means. A Skip line is ignored by every reader. */
  datatype Op = Put(key: Bytes, value: Bytes) | Del(key: Bytes) | Skip

  function Decode(line: Bytes): Op
    requires line != []
  {
    var tab := Find(line, TAB, 0);
    if tab >= |line| - 1 then Skip
    else
      var key := Unescape(line[..tab]);
      var value := Unescape(line[tab + 1..|line| - 1]);
      if key.None? || value.None? then Skip
      else if key.value == TOMBSTONE_KEY then Del(value.value)
      else Put(key.value, value.value)
  }

  function EncodeLine(key: Bytes, value: Bytes): Bytes {
    Escape(key) + [TAB] + Escape(value) + [NEWLINE]
  }

  /** The record an operation is written as. */
  function EncodeOp(op: Op): Bytes
    requires !op.Skip?
  {
    match op
    case Put(k, v) => EncodeLine(k, v)
    case Del(k) => EncodeLine(TOMBSTONE_KEY, k)
  }

  /** Sets of the reserved key are rejected by the store, so no Put carries it. */
  predicate Writable(op: Op) {
    !op.Skip? && (op.Put? ==> op.key != TOMBSTONE_KEY)
  }

  /** An encoded line holds one tab, the separator, and one newline, its last byte. */
  lemma EncodedLineShape(key: Bytes, value: Bytes)
    ensures IsLine(EncodeLine(key, value))
    ensures var line := EncodeLine(key, value);
            forall j :: 0 <= j < |line| ==>
              && (line[j] == TAB <==> j == |Escape(key)|)
              && (line[j] == NEWLINE <==> j == |line| - 1)
              && line[j] != RETURN
  {
    EscapeHidesSeparators(key);
    EscapeHidesSeparators(value);
    var line := EncodeLine(key, value);
    var k, v := Escape(key), Escape(value);
    hide Escape;
    forall j | 0 <= j < |line|
      ensures (line[j] == TAB <==> j == |k|) && (line[j] == NEWLINE <==> j == |line| - 1) && line[j] != RETURN
    {
      if j < |k| {
        assert line[j] == k[j];
      } else if |k| < j < |line| - 1 {
        assert line[j] == v[j - |k| - 1];
      }
    }
  }

  lemma DecodeInvertsEncodeLine(key: Bytes, value: Bytes)
    ensures Decode(EncodeLine(key, value)) == if key == TOMBSTONE_KEY then Del(value) else Put(key, value)
  {
    EncodedLineShape(key, value);
    UnescapeInvertsEscape(key);
    UnescapeInvertsEscape(value);
    hide Escape, Unescape;
    var line := EncodeLine(key, value);
    var tab := |Escape(key)|;
    FindIs(line, TAB, 0, tab);
    assert line[..tab] == Escape(key);
    assert line[tab + 1..|line| - 1] == Escape(value);
  }

  /** Reading back an encoded record gives the operation it was written for. */
  lemma DecodeInvertsEncode(op: Op)
    requires Writable(op)
    ensures IsLine(EncodeOp(op))
    ensures Decode(EncodeOp(op)) == op
  {
    hide Decode, Escape, EncodeLine;
    match op
    case Put(key, value) =>
      EncodedLineShape(key, value);
      DecodeInvertsEncodeLine(key, value);
    case Del(key) =>
      EncodedLineShape(TOMBSTONE_KEY, key);
      DecodeInvertsEncodeLine(TOMBSTONE_KEY, key);
  }

  // ----------------------------------------------------------------- records

  /** One complete line: where it starts, how long it is, what it says. */
  datatype Rec = Rec(offset: nat, length: nat, op: Op)

  /** The record of the line from `from` to the newline at `newline`. */
  function RecordAt(c: Bytes, from: nat, newline: nat): (r: Rec)
    requires from <= newline < |c|
    ensures r.offset == from && r.offset + r.length == newline + 1
  {
    Rec(from, newline + 1 - from, Decode(c[from..newline + 1]))
  }

  function RecordsFrom(c: Bytes, from: nat): (rs: seq<Rec>)
    requires from <= |c|
    decreases |c| - from
  {
    var newline := Find(c, NEWLINE, from);
    if newline == |c| then []
    else [RecordAt(c, from, newline)] + RecordsFrom(c, newline + 1)
  }

  lemma RecordsUnfold(c: Bytes, from: nat, newline: nat)
    requires from <= newline < |c| && newline == Find(c, NEWLINE, from)
    ensures RecordsFrom(c, from) == [RecordAt(c, from, newline)] + RecordsFrom(c, newline + 1)
  {
  }

  function Records(c: Bytes): seq<Rec> {
    RecordsFrom(c, 0)
  }

  function Shift(rs: seq<Rec>, base: nat): (shifted: seq<Rec>)
    ensures |shifted| == |rs|
    ensures forall i :: 0 <= i < |rs| ==> shifted[i] == rs[i].(offset := rs[i].offset + base)
  {
    seq(|rs|, i requires 0 <= i < |rs| => rs[i].(offset := rs[i].offset + base))
  }

  /** The record is the whole line found at its place. */
  predicate LocatedIn(c: Bytes, r: Rec) {
    && r.offset + r.length <= |c|
    && IsLine(c[r.offset..r.offset + r.length])
    && r.op == Decode(c[r.offset..r.offset + r.length])
  }

  lemma ShiftNothing(base: nat)
    ensures Shift([], base) == []
  {
  }

  lemma ShiftCons(r: Rec, rest: seq<Rec>, base: nat)
    ensures Shift([r] + rest, base) == [r.(offset := r.offset + base)] + Shift(rest, base)
  {
  }

  /** Records lie one after another, from `from` on, each the line found at its place. */
  predicate Chained(c: Bytes, from: nat, rs: seq<Rec>) {
    && (forall i :: 0 <= i < |rs| ==> LocatedIn(c, rs[i]))
    && (forall i :: 0 < i < |rs| ==> rs[i].offset == rs[i - 1].offset + rs[i - 1].length)
    && (rs != [] ==> rs[0].offset == from)
  }

  function EndOf(from: nat, rs: seq<Rec>): nat {
    if rs == [] then from else rs[|rs| - 1].offset + rs[|rs| - 1].length
  }

  lemma ChainedCons(c: Bytes, r: Rec, rest: seq<Rec>)
    requires LocatedIn(c, r) && Chained(c, r.offset + r.length, rest)
    ensures Chained(c, r.offset, [r] + rest)
    ensures EndOf(r.offset, [r] + rest) == EndOf(r.offset + r.length, rest)
  {
    hide LocatedIn;
    var rs := [r] + rest;
    forall i | 0 <= i < |rs|
      ensures LocatedIn(c, rs[i])
      ensures i > 0 ==> rs[i].offset == rs[i - 1].offset + rs[i - 1].length
    {
      if i > 0 {
        assert rs[i] == rest[i - 1];
      }
    }
  }

  lemma {:induction false} RecordsAreChained(c: Bytes, from: nat)
    requires from <= |c|
    ensures Chained(c, from, RecordsFrom(c, from))
    ensures EndOf(from, RecordsFrom(c, from)) <= |c|
    ensures forall j :: EndOf(from, RecordsFrom(c, from)) <= j < |c| ==> c[j] != NEWLINE
    ensures RecordsFrom(c, from) != [] ==>
              EndOf(from, RecordsFrom(c, from)) > 0 && c[EndOf(from, RecordsFrom(c, from)) - 1] == NEWLINE
    decreases |c| - from
  {
    hide Decode, Chained, RecordsFrom;
    var newline := Find(c, NEWLINE, from);
    if newline == |c| {
      RecordsOfRest(c, from);
      NothingIsChained(c, from);
    } else {
      RecordsAreChained(c, newline + 1);
      RecordsUnfold(c, from, newline);
      assert LocatedIn(c, RecordAt(c, from, newline));
      ChainedCons(c, RecordAt(c, from, newline), RecordsFrom(c, newline + 1));
    }
  }

  lemma NothingIsChained(c: Bytes, from: nat)
    ensures Chained(c, from, [])
  {
  }

  /** The records cover exactly the complete prefix. */
  lemma RecordsCoverCompletePrefix(c: Bytes)
    ensures Chained(c, 0, Records(c))
    ensures EndOf(0, Records(c)) == CompletePrefixLength(c)
  {
    RecordsAreChained(c, 0);
  }

  lemma Associate<T>(a: seq<T>, b: seq<T>, c: seq<T>)
    ensures a + (b + c) == (a + b) + c
  {
  }

  lemma RecordAtSame(c: Bytes, from: nat, newline: nat, d: Bytes, dFrom: nat)
    requires from <= newline < |c| && dFrom + (newline - from) < |d|
    requires c[from..newline + 1] == d[dFrom..dFrom + (newline - from) + 1]
    ensures RecordAt(c, from, newline) == RecordAt(d, dFrom, dFrom + (newline - from)).(offset := from)
  {
  }

  /** Without a further newline there is no further record. */
  lemma RecordsOfRest(c: Bytes, from: nat)
    requires from <= |c| && Find(c, NEWLINE, from) == |c|
    ensures RecordsFrom(c, from) == []
  {
  }

  lemma {:induction false} RecordsFromConcat(a: Bytes, b: Bytes, from: nat)
    requires Complete(a) && from <= |a|
    ensures RecordsFrom(a + b, from) == RecordsFrom(a, from) + RecordsFrom(a + b, |a|)
    decreases |a| - from
  {
    hide RecordAt, Find, RecordsFrom;
    var c := a + b;
    if from == |a| {
      RecordsOfRest(a, from);
    } else {
      var newline := Find(a, NEWLINE, from);
      FindIs(c, NEWLINE, from, newline);
      assert c[from..newline + 1] == a[from..newline + 1];
      RecordAtSame(c, from, newline, a, from);
      RecordsUnfold(a, from, newline);
      RecordsUnfold(c, from, newline);
      RecordsFromConcat(a, b, newline + 1);
      Associate([RecordAt(a, from, newline)], RecordsFrom(a, newline + 1), RecordsFrom(c, |a|));
    }
  }

  lemma FindShift(a: Bytes, b: Bytes, from: nat)
    requires from <= |b|
    ensures Find(a + b, NEWLINE, |a| + from) == |a| + Find(b, NEWLINE, from)
  {
    var c := a + b;
    var newline := Find(b, NEWLINE, from);
    assert forall j :: |a| <= j < |c| ==> c[j] == b[j - |a|];
    FindIs(c, NEWLINE, |a| + from, |a| + newline);
  }

  lemma {:induction false} RecordsFromShift(a: Bytes, b: Bytes, from: nat)
    requires from <= |b|
    ensures RecordsFrom(a + b, |a| + from) == Shift(RecordsFrom(b, from), |a|)
    decreases |b| - from
  {
    hide RecordAt, Find, RecordsFrom, Shift;
    FindShift(a, b, from);
    var c := a + b;
    var newline := Find(b, NEWLINE, from);
    if newline < |b| {
      assert c[|a| + from..|a| + newline + 1] == b[from..newline + 1];
      RecordAtSame(c, |a| + from, |a| + newline, b, from);
      RecordsUnfold(b, from, newline);
      RecordsUnfold(c, |a| + from, |a| + newline);
      RecordsFromShift(a, b, newline + 1);
      ShiftCons(RecordAt(b, from, newline), RecordsFrom(b, newline + 1), |a|);
    } else {
      RecordsOfRest(b, from);
      RecordsOfRest(c, |a| + from);
      ShiftNothing(|a|);
    }
  }

  /** Records of a complete file followed by more bytes. */
  lemma RecordsConcat(a: Bytes, b: Bytes)
    requires Complete(a)
    ensures Records(a + b) == Records(a) + Shift(Records(b), |a|)
  {
    hide Decode, RecordsFrom;
    RecordsFromConcat(a, b, 0);
    RecordsFromShift(a, b, 0);
  }

  lemma RecordsOfTail(t: Bytes)
    requires NEWLINE !in t
    ensures Records(t) == []
  {
    assert Find(t, NEWLINE, 0) == |t|;
  }

  lemma RecordsOfLine(line: Bytes)
    requires IsLine(line)
    ensures Records(line) == [Rec(0, |line|, Decode(line))]
  {
    FindIs(line, NEWLINE, 0, |line| - 1);
    assert line[0..|line|] == line;
    assert RecordsFrom(line, |line|) == [];
  }

  /** Cutting the torn tail, or tearing more of it, changes no record. */
  lemma RecordsIgnoreTail(c: Bytes)
    ensures Complete(c[..CompletePrefixLength(c)])
    ensures Records(c[..CompletePrefixLength(c)]) == Records(c)
    ensures CompletePrefixLength(c) == 0 ==> Records(c) == []
  {
    var n := CompletePrefixLength(c);
    var t := c[n..];
    assert c == c[..n] + t;
    RecordsConcat(c[..n], t);
    RecordsOfTail(t);
  }

  lemma CompleteAppend(c: Bytes, line: Bytes)
    requires IsLine(line)
    ensures Complete(c + line) && CompletePrefixLength(c + line) == |c + line|
  {
    assert (c + line)[|c + line| - 1] == NEWLINE;
  }

  /** Appending one line to a complete file adds exactly its record, at the old end. */
  lemma RecordsAppendLine(c: Bytes, line: Bytes)
    requires Complete(c) && IsLine(line)
    ensures Complete(c + line)
    ensures Records(c + line) == Records(c) + [Rec(|c|, |line|, Decode(line))]
    ensures CompletePrefixLength(c + line) == |c + line|
  {
    hide Decode, Records, IsLine;
    RecordsConcat(c, line);
    RecordsOfLine(line);
    assert Complete(c + line) && CompletePrefixLength(c + line) == |c + line| by {
      CompleteAppend(c, line);
    }
  }

  /** A torn append adds no record: a strict prefix of a line holds no newline. */
  lemma RecordsTornLine(c: Bytes, line: Bytes, k: nat)
    requires Complete(c) && IsLine(line) && k < |line|
    ensures Records(c + line[..k]) == Records(c)
    ensures CompletePrefixLength(c + line[..k]) == |c|
  {
    var t := line[..k];
    RecordsConcat(c, t);
    RecordsOfTail(t);
    assert forall j :: |c| <= j < |c + t| ==> (c + t)[j] == t[j - |c|];
    assert c != [] ==> (c + t)[|c| - 1] == NEWLINE;
  }

  predicate AllWritable(ops: seq<Op>) {
    forall i :: 0 <= i < |ops| ==> Writable(ops[i])
  }

  function EncodeAll(ops: seq<Op>): Bytes
    requires AllWritable(ops)
  {
    if ops == [] then [] else EncodeAll(ops[..|ops| - 1]) + EncodeOp(ops[|ops| - 1])
  }

  function Ops(rs: seq<Rec>): (ops: seq<Op>)
    ensures |ops| == |rs|
    ensures forall i :: 0 <= i < |rs| ==> ops[i] == rs[i].op
  {
    seq(|rs|, i requires 0 <= i < |rs| => rs[i].op)
  }

  lemma OpsSnoc(rs: seq<Rec>, r: Rec)
    ensures Ops(rs + [r]) == Ops(rs) + [r.op]
  {
  }

  lemma EncodeAllSnoc(ops: seq<Op>)
    requires AllWritable(ops) && ops != []
    ensures AllWritable(ops[..|ops| - 1]) && Writable(ops[|ops| - 1])
    ensures EncodeAll(ops) == EncodeAll(ops[..|ops| - 1]) + EncodeOp(ops[|ops| - 1])
  {
    hide EncodeOp;
  }

  lemma EncodeNothing()
    ensures EncodeAll([]) == [] && Complete([]) && Ops(Records([])) == []
  {
    RecordsOfTail([]);
  }

  lemma OneMoreLine(ops: seq<Op>, file: Bytes, last: Op)
    requires Complete(file) && Ops(Records(file)) == ops && Writable(last)
    ensures Complete(file + EncodeOp(last)) && Ops(Records(file + EncodeOp(last))) == ops + [last]
  {
    hide Decode, EncodeOp, Records, IsLine, Complete, Ops;
    DecodeInvertsEncode(last);
    RecordsAppendLine(file, EncodeOp(last));
    OpsSnoc(Records(file), Rec(|file|, |EncodeOp(last)|, last));
  }

  lemma {:induction false} ParseInvertsEncodeAll(ops: seq<Op>)
    requires AllWritable(ops)
    ensures Complete(EncodeAll(ops))
    ensures Ops(Records(EncodeAll(ops))) == ops
    decreases |ops|
  {
    hide EncodeOp, Records, Complete, EncodeAll, Ops;
    if ops == [] {
      EncodeNothing();
    } else {
      var init, last := ops[..|ops| - 1], ops[|ops| - 1];
      EncodeAllSnoc(ops);
      ParseInvertsEncodeAll(init);
      OneMoreLine(init, EncodeAll(init), last);
      assert ops == init + [last];
    }
  }

  /**
    A file made of encoded records, with any strict prefix of one more record torn off at its end,
    reads back as exactly those records.
   */
  lemma ParseInvertsEncodeWithTornTail(ops: seq<Op>, next: Op, k: nat)
    requires AllWritable(ops)
    requires Writable(next) && k < |EncodeOp(next)|
    ensures Ops(Records(EncodeAll(ops) + EncodeOp(next)[..k])) == ops
    ensures CompletePrefixLength(EncodeAll(ops) + EncodeOp(next)[..k]) == |EncodeAll(ops)|
  {
    ParseInvertsEncodeAll(ops);
    DecodeInvertsEncode(next);
    RecordsTornLine(EncodeAll(ops), EncodeOp(next), k);
  }
}
