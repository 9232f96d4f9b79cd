/**
  The format of a segment file byte by byte (cpp/core/JsonlSegmentStore.cpp:13-70), so that files
  written by other versions of the store are read as they were meant.
 */
module SegmentBytes {
  import opened Wrappers
  import opened SegmentCodec
  import opened Replay

  lemma {:induction false} EscapeConcat(s: Bytes, t: Bytes)
    ensures Escape(s + t) == Escape(s) + Escape(t)
    decreases |s|
  {
    if s == [] {
      assert s + t == t;
    } else {
      EscapeConcat(s[1..], t);
      assert (s + t)[1..] == s[1..] + t;
      Associate(EscapeByte(s[0]), Escape(s[1..]), Escape(t));
    }
  }

  lemma EscapeOne(b: byte)
    ensures Escape([b]) == EscapeByte(b)
  {
    assert [b][1..] == [] && EscapeByte(b) + [] == EscapeByte(b);
  }

  /**
    A backslash and the letters t, n and r stand for tab, newline and carriage return, two
    backslashes for one; every other byte stands for itself, and the bytes are escaped one by one.
   */
  lemma EscapesInBytes(s: Bytes, t: Bytes)
    ensures Escape([92]) == [92, 92] && Escape([9]) == [92, 116] && Escape([10]) == [92, 110] && Escape([13]) == [92, 114]
    ensures forall b :: b != 92 && b != 9 && b != 10 && b != 13 ==> Escape([b]) == [b]
    ensures Escape(s + t) == Escape(s) + Escape(t)
  {
    EscapeConcat(s, t);
    forall b: byte
      ensures Escape([b]) == EscapeByte(b)
    {
      EscapeOne(b);
    }
    hide Escape;
  }

  /** Reading is fixed on every input: what a backslash and its letter stand for, and what makes a field malformed. */
  lemma UnescapesInBytes(b: byte, rest: Bytes)
    ensures Unescape([92, b] + rest) ==
            match b
            case 92 => Prepend(92, Unescape(rest))
            case 116 => Prepend(9, Unescape(rest))
            case 110 => Prepend(10, Unescape(rest))
            case 114 => Prepend(13, Unescape(rest))
            case _ => None
    ensures b != 92 ==> Unescape([b] + rest) == Prepend(b, Unescape(rest))
    ensures Unescape([92]) == None && Unescape([]) == Some([])
  {
    assert ([92, b] + rest)[2..] == rest && ([b] + rest)[1..] == rest;
  }

  /** The reserved key of deletions has none of the bytes that are escaped. */
  lemma TombstoneInBytes()
    ensures TOMBSTONE_KEY == [127, 68, 69, 76] && Escape(TOMBSTONE_KEY) == [127, 68, 69, 76]
  {
    EscapeOne(127);
    EscapeOne(68);
    EscapeOne(69);
    EscapeOne(76);
    EscapeConcat([127], [68]);
    EscapeConcat([127, 68], [69]);
    EscapeConcat([127, 68, 69], [76]);
    assert [127] + [68] == [127, 68] && [127, 68] + [69] == [127, 68, 69] && [127, 68, 69] + [76] == [127, 68, 69, 76];
  }

  const KEY: Bytes := [107]                                     // k
  const VALUE: Bytes := [97, 10, 98]                            // a, newline, b
  const PUT_LINE: Bytes := [107, 9, 97, 92, 110, 98, 10]        // k, tab, a\nb, newline
  const DELETE_LINE: Bytes := [127, 68, 69, 76, 9, 107, 10]     // 0x7f DEL, tab, k, newline

  lemma KeyAndValueInBytes()
    ensures Escape(KEY) == KEY && Escape(VALUE) == [97, 92, 110, 98]
  {
    EscapesInBytes([97], [10]);
    EscapesInBytes([97, 10], [98]);
    hide Escape;
    assert [97] + [10] == [97, 10] && [97, 10] + [98] == VALUE;
  }

  /** A set, as the bytes that are written for it. */
  lemma PutInBytes()
    ensures EncodeOp(Put(KEY, VALUE)) == PUT_LINE && IsLine(PUT_LINE) && Decode(PUT_LINE) == Put(KEY, VALUE)
  {
    KeyAndValueInBytes();
    DecodeInvertsEncode(Put(KEY, VALUE));
    hide Decode, Escape, IsLine;
    assert KEY + [9] + [97, 92, 110, 98] + [10] == PUT_LINE;
  }

  /** And a deletion. */
  lemma DeletionInBytes()
    ensures EncodeOp(Del(KEY)) == DELETE_LINE && IsLine(DELETE_LINE) && Decode(DELETE_LINE) == Del(KEY)
  {
    KeyAndValueInBytes();
    TombstoneInBytes();
    DecodeInvertsEncode(Del(KEY));
    hide Decode, Escape, IsLine;
    assert [127, 68, 69, 76] + [9] + KEY + [10] == DELETE_LINE;
  }

  /** A file of literal bytes: the value is there after the first line, and gone after the second. */
  lemma FileInBytes(limit: nat)
    requires limit >= 7
    ensures Replayed(map[0 := PUT_LINE], limit) == map[KEY := VALUE]
    ensures Replayed(map[0 := PUT_LINE + DELETE_LINE], limit) == map[]
  {
    PutInBytes();
    DeletionInBytes();
    hide Decode, EncodeOp;
    RecordsOfLine(PUT_LINE);
    RecordsAppendLine(PUT_LINE, DELETE_LINE);
    OneSegmentReplayed(PUT_LINE, limit);
    OneSegmentReplayed(PUT_LINE + DELETE_LINE, limit);
    var one := [Rec(0, 7, Put(KEY, VALUE))];
    var two := one + [Rec(7, 7, Del(KEY))];
    assert one[..0] == [] && two[..1] == one;
    hide Records, Replayed;
    assert ApplyRecs(map[], one, limit) == map[KEY := VALUE];
  }

  lemma OneSegmentReplayed(c: Bytes, limit: nat)
    ensures Replayed(map[0 := c], limit) == ApplyRecs(map[], Records(c), limit)
  {
    var disk: Disk := map[0 := c];
    assert disk.Keys == {0};
    assert MaxId(disk.Keys) == 0 && disk - {0} == map[];
    hide ApplyRecs, Records;
  }
}
